/**
 * tensor_converter: the element-type converter, which casts elements one by one over the smaller
 * of the two counts, and the layout converters to grayscale (one or three channels) and to RGB,
 * which pick a clone or a channel transform by the source's channel count.
 */
module TensorConverters {
  import opened Tensors
  import opened TensorHelpers

  /** The element count of a tensor whose buffer holds count() elements. */
  ghost predicate Counted<D(0)>(t: Tensor<D>)
    reads t
  {
    t.data != null && t.data.Length == Product(t.shape, 0, |t.shape|)
  }

  /**
   * tensor_converter (CPU): element i of the destination becomes cast(element i of the source) for
   * every i below the smaller of the two counts; the destination's later elements keep their values.
   * The source is read as it was before the call, even when both tensors share a buffer.
   */
  method ConvertElements<S(0), T(0)>(source: Tensor<S>, destination: Tensor<T>, cast: S -> T)
    requires Counted(source) && Counted(destination)
    modifies destination.data
    ensures var count := if source.data.Length < destination.data.Length then source.data.Length else destination.data.Length;
      forall i | 0 <= i < destination.data.Length ::
        destination.data[i] == if i < count then cast(old(source.data[i])) else old(destination.data[i])
  {
    var sourceCount := source.Count();
    var destinationCount := destination.Count();
    var count := if sourceCount < destinationCount then sourceCount else destinationCount;
    var input := source.data;
    var output := destination.data;
    var i := 0;
    while i < count
      invariant 0 <= i <= count
      invariant forall j | i <= j < input.Length :: input[j] == old(input[j])
      invariant forall j | 0 <= j < output.Length ::
        output[j] == if j < i then cast(old(input[j])) else old(output[j])
    {
      output[i] := cast(input[i]);
      i := i + 1;
    }
  }

  /** tensor_layout; rgba has no converter. */
  datatype Layout = Rgb | Rgba | Grayscale | Grayscale3

  /**
   * The grayscale and grayscale_3 layout converters: a one-channel source is cloned; a three- or
   * four-channel source becomes a one-image tensor of 1 (grayscale) or 3 (grayscale_3) channels,
   * each the luma of the source's first three channels; any other source leaves the destination
   * as it was.
   */
  method ConvertToGray<D(0)>(layout: Layout, source: Tensor<D>, destination: Tensor<D>, luma: (D, D, D) -> D) returns (result: Tensor<D>)
    requires layout == Grayscale || layout == Grayscale3
    requires source.Dense()
    requires source.Channels() == 3 || source.Channels() == 4 ==> source.Extents().n >= 1
    ensures source.Channels() == 1 ==>
      fresh(result) && result.Dense() && result.shape == source.shape && result.order == source.order
      && forall n, c, h, w | InRange(source.Extents(), n, c, h, w) :: result.At(n, c, h, w) == source.At(n, c, h, w)
    ensures source.Channels() == 3 || source.Channels() == 4 ==>
      fresh(result) && result.Dense() && result.order == source.order
      && result.Extents() == Dims(1, if layout == Grayscale then 1 else 3, source.Extents().h, source.Extents().w)
      && forall c, h, w | InRange(result.Extents(), 0, c, h, w) ::
        result.At(0, c, h, w) == luma(source.At(0, 0, h, w), source.At(0, 1, h, w), source.At(0, 2, h, w))
    ensures source.Channels() !in {1, 3, 4} ==> result == destination
  {
    var channels := source.Channels();
    if channels == 1 {
      result := source.Clone();
      CloneIsEqual(source, result);
    } else if channels == 3 || channels == 4 {
      result := RgbOrRgbaToGray(source, if layout == Grayscale then 1 else 3, luma);
    } else {
      result := destination;
    }
  }

  /**
   * The rgb layout converter: a three-channel source is cloned, a four-channel source loses its
   * fourth channel (rgba_to_rgb), and any other source leaves the destination as it was.
   */
  method ConvertToRgb<D(0)>(source: Tensor<D>, destination: Tensor<D>) returns (result: Tensor<D>)
    requires source.Dense()
    requires source.Channels() == 4 ==> source.Extents().n >= 1
    ensures source.Channels() == 3 ==>
      fresh(result) && result.Dense() && result.shape == source.shape && result.order == source.order
      && forall n, c, h, w | InRange(source.Extents(), n, c, h, w) :: result.At(n, c, h, w) == source.At(n, c, h, w)
    ensures source.Channels() == 4 ==>
      fresh(result) && result.Dense() && result.order == source.order
      && result.Extents() == Dims(1, 3, source.Extents().h, source.Extents().w)
      && forall c, h, w | InRange(result.Extents(), 0, c, h, w) :: result.At(0, c, h, w) == source.At(0, c, h, w)
    ensures source.Channels() !in {3, 4} ==> result == destination
  {
    var channels := source.Channels();
    if channels == 3 {
      result := source.Clone();
      CloneIsEqual(source, result);
    } else if channels == 4 {
      result := RgbaToRgb(source);
    } else {
      result := destination;
    }
  }
}
