/**
 * operation_merge_channel: three one-channel images of the same height, width, device and order
 * merged into one three-channel image. The source copies the three planes one after another in
 * both orders, which is the NCHW layout; in NHWC order a three-channel image interleaves the
 * channels of each pixel, so the corrected merge interleaves them.
 */
module MergeChannels {
  import opened Wrappers
  import opened Tensors

  /** Two dense tensors of the same height, width, device and order. */
  ghost predicate Agrees<D(0)>(a: Tensor<D>, b: Tensor<D>)
    reads a, b
    requires a.Dense() && b.Dense()
  {
    a.Extents().h == b.Extents().h && a.Extents().w == b.Extents().w && a.device == b.device && a.order == b.order
  }

  /** Three dense tensors. */
  ghost predicate Inputs<D(0)>(srcs: seq<Tensor<D>>)
    reads set i | 0 <= i < |srcs| :: srcs[i]
  {
    |srcs| == 3 && forall i | 0 <= i < 3 :: srcs[i].Dense()
  }

  /**
   * The CHECKs of merge_channel_cpu, in the order the loop reaches them: every input has one
   * channel, but the loop stops at a device or shape mismatch before it checks the later inputs.
   */
  ghost predicate Checked<D(0)>(srcs: seq<Tensor<D>>)
    reads set i | 0 <= i < |srcs| :: srcs[i]
    requires Inputs(srcs)
  {
    && srcs[0].Extents().c == 1
    && (srcs[0].device < 0 ==> srcs[1].Extents().c == 1)
    && (srcs[0].device < 0 && Agrees(srcs[0], srcs[1]) ==> srcs[2].Extents().c == 1)
  }

  /** The inputs pass every test of merge_channel_cpu: the first is on the CPU and the others agree with it. */
  ghost predicate Mergeable<D(0)>(srcs: seq<Tensor<D>>)
    reads set i | 0 <= i < |srcs| :: srcs[i]
    requires Inputs(srcs)
  {
    srcs[0].device < 0 && Agrees(srcs[0], srcs[1]) && Agrees(srcs[0], srcs[2])
  }

  /**
   * The loop of CHECKs and tests of merge_channel_cpu: ok tells whether the merge goes ahead, and
   * then height, width, device and order are the first input's.
   */
  method CheckInputs<D(0)>(srcs: seq<Tensor<D>>) returns (ok: bool, height: int, width: int, device: int, order: Order)
    requires Inputs(srcs) && Checked(srcs)
    ensures ok <==> Mergeable(srcs)
    ensures ok ==> height == srcs[0].Extents().h && width == srcs[0].Extents().w && device == srcs[0].device && order == srcs[0].order
    ensures ok ==> forall i | 0 <= i < 3 :: srcs[i].Extents().c == 1
  {
    height, width, device, order := 0, 0, 0, NCHW;
    var i := 0;
    while i < |srcs|
      invariant 0 <= i <= 3
      invariant i > 0 ==> height == srcs[0].Extents().h && width == srcs[0].Extents().w && device == srcs[0].device && order == srcs[0].order
      invariant i > 0 ==> device < 0
      invariant forall j | 0 <= j < i :: srcs[j].Extents().c == 1 && Agrees(srcs[0], srcs[j])
    {
      assert srcs[i].Extents().c == 1;
      if i == 0 {
        height := srcs[i].Height();
        width := srcs[i].Width();
        device := srcs[i].device;
        order := srcs[i].order;
        if device >= 0 {
          return false, height, width, device, order;
        }
      } else {
        if height != srcs[i].Height() || width != srcs[i].Width() || device != srcs[i].device || order != srcs[i].order {
          return false, height, width, device, order;
        }
      }
      i := i + 1;
    }
    ok := true;
  }

  /**
   * s holds three planes of hw elements each one after another, plane c from c·hw: what the three
   * memcpy calls leave.
   */
  ghost predicate Planar<D>(s: seq<D>, p0: seq<D>, p1: seq<D>, p2: seq<D>, hw: nat)
  {
    && |s| == 3 * hw && |p0| >= hw && |p1| >= hw && |p2| >= hw
    && forall q | 0 <= q < hw :: s[q] == p0[q] && s[hw + q] == p1[q] && s[2 * hw + q] == p2[q]
  }

  /** s holds three planes of hw elements channel by channel within each pixel: the NHWC layout. */
  ghost predicate Interleaved<D>(s: seq<D>, p0: seq<D>, p1: seq<D>, p2: seq<D>, hw: nat)
  {
    && |s| == 3 * hw && |p0| >= hw && |p1| >= hw && |p2| >= hw
    && forall q | 0 <= q < hw :: s[q * 3] == p0[q] && s[q * 3 + 1] == p1[q] && s[q * 3 + 2] == p2[q]
  }

  /** The layout the result's order expects. */
  ghost predicate LaidOut<D>(s: seq<D>, order: Order, p0: seq<D>, p1: seq<D>, p2: seq<D>, hw: nat)
  {
    if order == NCHW then Planar(s, p0, p1, p2, hw) else Interleaved(s, p0, p1, p2, hw)
  }

  /** Where element q of channel c lies in a buffer of three channels of hw elements. */
  function Position(order: Order, hw: nat, c: int, q: int): int
  {
    if order == NCHW then c * hw + q else q * 3 + c
  }

  /** Channel c of s, in the given order, is the first hw elements of plane. */
  ghost predicate Channel<D>(s: seq<D>, order: Order, hw: nat, c: int, plane: seq<D>)
  {
    |plane| >= hw && forall q | 0 <= q < hw :: 0 <= Position(order, hw, c, q) < |s| && s[Position(order, hw, c, q)] == plane[q]
  }

  /** A laid-out buffer holds plane c as its channel c. */
  lemma ChannelsOfLayout<D>(s: seq<D>, order: Order, p0: seq<D>, p1: seq<D>, p2: seq<D>, hw: nat)
    requires LaidOut(s, order, p0, p1, p2, hw)
    ensures Channel(s, order, hw, 0, p0) && Channel(s, order, hw, 1, p1) && Channel(s, order, hw, 2, p2)
  {
  }

  /** Element (0, c, h, w) of a one-image, three-channel NCHW buffer lies at c·H·W + h·W + w. */
  lemma PlanarOffset(H: nat, W: nat, c: int, h: int, w: int)
    requires 0 <= c < 3 && 0 <= h < H && 0 <= w < W
    ensures 0 <= h * W + w < H * W
    ensures Offset(NCHW, Dims(1, 3, H, W), 0, c, h, w) == c * (H * W) + (h * W + w)
  {
    MixedRadix(h, w, H, W);
    assert (c * H + h) * W == c * (H * W) + h * W;
  }

  /** Element (0, c, h, w) of a one-image, three-channel NHWC buffer lies at (h·W + w)·3 + c. */
  lemma InterleavedOffset(H: nat, W: nat, c: int, h: int, w: int)
    requires 0 <= c < 3 && 0 <= h < H && 0 <= w < W
    ensures 0 <= h * W + w < H * W
    ensures Offset(NHWC, Dims(1, 3, H, W), 0, c, h, w) == (h * W + w) * 3 + c
  {
    MixedRadix(h, w, H, W);
  }

  /** Pixel (h, w) of the first image of a one-channel tensor lies at h·W + w in either order. */
  lemma SingleChannelAt<D(0)>(t: Tensor<D>, h: int, w: int)
    requires t.Dense() && t.Extents().c == 1 && t.Extents().n >= 1 && 0 <= h < t.Extents().h && 0 <= w < t.Extents().w
    ensures 0 <= h * t.Extents().w + w < t.data.Length
    ensures t.At(0, 0, h, w) == t.data[h * t.Extents().w + w]
  {
    t.DenseSize();
    OffsetInRange(t.order, t.Extents(), 0, 0, h, w);
  }

  /** A one-image tensor of three channels whose channel c is the first image of input c. */
  ghost predicate MergedFrom<D(0)>(result: Tensor<D>, srcs: seq<Tensor<D>>)
    reads result, result.data, set i | 0 <= i < |srcs| :: srcs[i]
    reads set i | 0 <= i < |srcs| :: srcs[i].data
    requires Inputs(srcs)
  {
    result.Dense() && result.Extents() == Dims(1, 3, srcs[0].Extents().h, srcs[0].Extents().w)
    && result.order == srcs[0].order && result.device == srcs[0].device && result.allocator == None
    && forall c, h, w | InRange(result.Extents(), 0, c, h, w) ::
      InRange(srcs[c].Extents(), 0, 0, h, w) && result.At(0, c, h, w) == srcs[c].At(0, 0, h, w)
  }

  /**
   * merge_channel_cpu as written: after the tests, a new tensor of one image, three channels and
   * the common height and width, whose buffer receives the first H·W elements of each input one
   * after another, in both orders. Each memcpy reads H·W elements, so a merged input needs an image.
   */
  method MergeChannelsAsWritten<D(0)>(srcs: seq<Tensor<D>>, dst: Tensor<D>) returns (result: Tensor<D>)
    requires Inputs(srcs) && Checked(srcs)
    requires Mergeable(srcs) ==> forall i | 0 <= i < 3 :: srcs[i].Extents().n >= 1
    ensures !Mergeable(srcs) ==> result == dst
    ensures Mergeable(srcs) ==>
      fresh(result) && result.Dense() && result.Extents() == Dims(1, 3, srcs[0].Extents().h, srcs[0].Extents().w)
      && result.order == srcs[0].order && result.device == srcs[0].device && result.allocator == None
      && Planar(result.data[..], srcs[0].data[..], srcs[1].data[..], srcs[2].data[..], srcs[0].Extents().h * srcs[0].Extents().w)
  {
    var ok, height, width, device, order := CheckInputs(srcs);
    if !ok {
      return dst;
    }
    var p0, p1, p2 := Planes(srcs);
    result := new Tensor(Dims(1, 3, height, width), device, order, None);
    ThreePlanes(height, width);
    CopyPlanes(result.data, p0, p1, p2, height * width);
  }

  /**
   * The corrected merge: the same tests and tensor, with the planes copied one after another in
   * NCHW order and interleaved pixel by pixel in NHWC order, so that channel c of the result is
   * input c in either order.
   */
  method MergeChannels<D(0)>(srcs: seq<Tensor<D>>, dst: Tensor<D>) returns (result: Tensor<D>)
    requires Inputs(srcs) && Checked(srcs)
    requires Mergeable(srcs) ==> forall i | 0 <= i < 3 :: srcs[i].Extents().n >= 1
    ensures !Mergeable(srcs) ==> result == dst
    ensures Mergeable(srcs) ==> fresh(result) && MergedFrom(result, srcs)
  {
    var ok, height, width, device, order := CheckInputs(srcs);
    if !ok {
      return dst;
    }
    var p0, p1, p2 := Planes(srcs);
    result := LaidOutTensor(p0, p1, p2, height, width, device, order);
    LayoutGivesMerge(result, srcs, p0, p1, p2);
  }

  /** A new tensor of one image and three channels holding the three planes as its order expects. */
  method LaidOutTensor<D(0)>(p0: seq<D>, p1: seq<D>, p2: seq<D>, height: nat, width: nat, device: int, order: Order)
    returns (result: Tensor<D>)
    requires |p0| >= height * width && |p1| >= height * width && |p2| >= height * width
    ensures fresh(result) && result.Dense() && result.Extents() == Dims(1, 3, height, width)
    ensures result.order == order && result.device == device && result.allocator == None
    ensures LaidOut(result.data[..], order, p0, p1, p2, height * width)
  {
    result := new Tensor(Dims(1, 3, height, width), device, order, None);
    ThreePlanes(height, width);
    if order == NCHW {
      CopyPlanes(result.data, p0, p1, p2, height * width);
    } else {
      InterleavePlanes(result.data, p0, p1, p2, height * width);
    }
  }

  /** The planes laid out as the result's order expects give channel c of the result from input c. */
  lemma LayoutGivesMerge<D(0)>(result: Tensor<D>, srcs: seq<Tensor<D>>, p0: seq<D>, p1: seq<D>, p2: seq<D>)
    requires Inputs(srcs) && Mergeable(srcs)
    requires forall i | 0 <= i < 3 :: srcs[i].Extents().c == 1 && srcs[i].Extents().n >= 1
    requires p0 == srcs[0].data[..] && p1 == srcs[1].data[..] && p2 == srcs[2].data[..]
    requires result.Dense() && result.Extents() == Dims(1, 3, srcs[0].Extents().h, srcs[0].Extents().w)
    requires result.order == srcs[0].order && result.device == srcs[0].device && result.allocator == None
    requires LaidOut(result.data[..], result.order, p0, p1, p2, srcs[0].Extents().h * srcs[0].Extents().w)
    ensures MergedFrom(result, srcs)
  {
    var hw := srcs[0].Extents().h * srcs[0].Extents().w;
    ChannelsOfLayout(result.data[..], result.order, p0, p1, p2, hw);
    forall c, h, w | InRange(result.Extents(), 0, c, h, w)
      ensures InRange(srcs[c].Extents(), 0, 0, h, w) && result.At(0, c, h, w) == srcs[c].At(0, 0, h, w)
    {
      var t := srcs[c];
      assert Agrees(srcs[0], t) && Channel(result.data[..], result.order, hw, c, t.data[..]) by {
        assert c == 0 || c == 1 || c == 2;
      }
      MergedElement(result, t, c, h, w);
    }
  }

  /** Element (0, c, h, w) of a result whose channel c is input t's buffer is pixel (h, w) of t. */
  lemma MergedElement<D(0)>(result: Tensor<D>, t: Tensor<D>, c: int, h: int, w: int)
    requires t.Dense() && t.Extents().c == 1 && t.Extents().n >= 1
    requires result.Dense()
    requires var d := result.Extents();
      && d == Dims(1, 3, t.Extents().h, t.Extents().w) && InRange(d, 0, c, h, w)
      && Channel(result.data[..], result.order, d.h * d.w, c, t.data[..])
    ensures InRange(t.Extents(), 0, 0, h, w) && result.At(0, c, h, w) == t.At(0, 0, h, w)
  {
    var d := result.Extents();
    SingleChannelAt(t, h, w);
    if result.order == NCHW {
      PlanarOffset(d.h, d.w, c, h, w);
    } else {
      InterleavedOffset(d.h, d.w, c, h, w);
    }
  }

  /** The buffer of the new tensor of one image and three channels holds three planes of H·W elements. */
  lemma ThreePlanes(H: nat, W: nat)
    ensures Dims(1, 3, H, W).Size() == 3 * (H * W)
  {
  }

  /** A one-channel tensor holds at least one image of H·W elements when it has an image. */
  lemma ImageFits(d: Dims)
    requires d.n >= 1 && d.c == 1
    ensures d.Size() >= d.h * d.w
  {
    MulMonotone(1, d.n, d.h * d.w);
    assert d.Size() == d.n * (d.h * d.w);
  }

  /** The buffers of the three inputs, each holding at least the first image's H·W elements. */
  method Planes<D(0)>(srcs: seq<Tensor<D>>) returns (p0: seq<D>, p1: seq<D>, p2: seq<D>)
    requires Inputs(srcs) && Mergeable(srcs)
    requires forall i | 0 <= i < 3 :: srcs[i].Extents().c == 1 && srcs[i].Extents().n >= 1
    ensures p0 == srcs[0].data[..] && p1 == srcs[1].data[..] && p2 == srcs[2].data[..]
    ensures var hw := srcs[0].Extents().h * srcs[0].Extents().w; |p0| >= hw && |p1| >= hw && |p2| >= hw
  {
    p0, p1, p2 := srcs[0].data[..], srcs[1].data[..], srcs[2].data[..];
    srcs[0].DenseSize();
    srcs[1].DenseSize();
    srcs[2].DenseSize();
    ImageFits(srcs[0].Extents());
    ImageFits(srcs[1].Extents());
    ImageFits(srcs[2].Extents());
  }

  /** The memcpy loop: plane i goes to i·hw .. (i + 1)·hw. */
  method CopyPlanes<D>(output: array<D>, p0: seq<D>, p1: seq<D>, p2: seq<D>, hw: nat)
    requires |p0| >= hw && |p1| >= hw && |p2| >= hw && output.Length == 3 * hw
    modifies output
    ensures Planar(output[..], p0, p1, p2, hw)
  {
    var i := 0;
    while i < 3
      invariant 0 <= i <= 3
      invariant i > 0 ==> forall q | 0 <= q < hw :: output[q] == p0[q]
      invariant i > 1 ==> forall q | 0 <= q < hw :: output[hw + q] == p1[q]
      invariant i > 2 ==> forall q | 0 <= q < hw :: output[2 * hw + q] == p2[q]
    {
      var plane := if i == 0 then p0 else if i == 1 then p1 else p2;
      assert i * hw == if i == 0 then 0 else if i == 1 then hw else 2 * hw;
      CopyElements(output, i * hw, plane, 0, hw);
      i := i + 1;
    }
  }

  /** The interleaving loop of the corrected merge: channel c of pixel q goes to q·3 + c. */
  method InterleavePlanes<D>(output: array<D>, p0: seq<D>, p1: seq<D>, p2: seq<D>, hw: nat)
    requires |p0| >= hw && |p1| >= hw && |p2| >= hw && output.Length == 3 * hw
    modifies output
    ensures Interleaved(output[..], p0, p1, p2, hw)
  {
    var p := 0;
    while p < hw
      invariant 0 <= p <= hw
      invariant forall q | 0 <= q < p :: output[q * 3] == p0[q] && output[q * 3 + 1] == p1[q] && output[q * 3 + 2] == p2[q]
    {
      output[p * 3] := p0[p];
      output[p * 3 + 1] := p1[p];
      output[p * 3 + 2] := p2[p];
      p := p + 1;
    }
  }

  /**
   * In NHWC order the buffer the source writes does not hold the merged image: with a 1 × 2 image
   * and planes [1, 2], [3, 4], [5, 6], channel 1 of pixel (0, 0) reads 2, the second pixel of
   * plane 0, instead of 3, the first pixel of plane 1.
   */
  lemma PlanarMisreadInNhwc(s: seq<int>)
    requires Planar(s, [1, 2], [3, 4], [5, 6], 2)
    ensures Element(s, NHWC, Dims(1, 3, 1, 2), 0, 1, 0, 0) == 2
    ensures !Interleaved(s, [1, 2], [3, 4], [5, 6], 2)
  {
    assert [1, 2][1] == 2;
    assert [3, 4][0] == 3;
  }
}
