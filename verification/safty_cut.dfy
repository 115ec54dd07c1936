/**
 * operation_safty_cut: the rectangle class (with integer coordinates) and the safe region-of-interest
 * cut. A rectangle inside the image is cut out with cut_border; a rectangle reaching past the image
 * first pads the image with a zero border (make_border) and then cuts, so the pixels outside the
 * image read as zero.
 */
module SaftyCuts {
  import opened Wrappers
  import opened Tensors
  import CutBorders
  import MakeBorders

  /** A point of the image plane (the point class of the rotate operation, with integer coordinates). */
  datatype Point = Point(x: int, y: int)

  /** The value of a rectangle: top-left corner (x, y), height h and width w. */
  datatype Box = Box(x: int, y: int, h: int, w: int)

  /** The pixel (px, py) lies inside the box. */
  predicate Covers(b: Box, px: int, py: int)
  {
    b.x <= px < b.x + b.w && b.y <= py < b.y + b.h
  }

  /**
   * operator&=: the overlap of two boxes, from the larger of the two left and top edges to the
   * smaller of the two right and bottom edges; an overlap with no width or no height becomes the
   * all-zero box.
   */
  function Intersection(a: Box, b: Box): (r: Box)
    ensures r.h >= 0 && r.w >= 0
    ensures r.h == 0 || r.w == 0 ==> r == Box(0, 0, 0, 0)
  {
    var x1 := Max(a.x, b.x);
    var y1 := Max(a.y, b.y);
    var w := Min(a.x + a.w, b.x + b.w) - x1;
    var h := Min(a.y + a.h, b.y + b.h) - y1;
    if w <= 0 || h <= 0 then Box(0, 0, 0, 0) else Box(x1, y1, h, w)
  }

  /** A pixel lies in the overlap of two boxes exactly when it lies in both. */
  lemma IntersectionCovers(a: Box, b: Box, px: int, py: int)
    ensures Covers(Intersection(a, b), px, py) <==> Covers(a, px, py) && Covers(b, px, py)
  {
    var x1 := Max(a.x, b.x);
    var y1 := Max(a.y, b.y);
    var w := Min(a.x + a.w, b.x + b.w) - x1;
    var h := Min(a.y + a.h, b.y + b.h) - y1;
    if w <= 0 || h <= 0 {
      assert !(Covers(a, px, py) && Covers(b, px, py));
    }
  }

  /** The overlap does not depend on the order of the two boxes. */
  lemma IntersectionCommutes(a: Box, b: Box)
    ensures Intersection(a, b) == Intersection(b, a)
  {
  }

  /** A box with an area overlaps itself in itself; any other box in the all-zero box. */
  lemma IntersectionWithItself(a: Box)
    ensures Intersection(a, a) == if a.h > 0 && a.w > 0 then a else Box(0, 0, 0, 0)
  {
  }

  /** v / 2 rounded toward zero, as the conversion of a float to an integer type rounds. */
  function HalfTowardZero(v: int): (r: int)
    ensures v >= 0 ==> 0 <= v - 2 * r <= 1
    ensures v < 0 ==> 0 <= 2 * r - v <= 1
  {
    if v >= 0 then v / 2 else -((-v) / 2)
  }

  /** The rectangle class, with integer coordinates. */
  class Rectangle {
    var x: int
    var y: int
    var h: int
    var w: int

    function Value(): Box
      reads this
    {
      Box(x, y, h, w)
    }

    /** The default constructor: the all-zero rectangle. */
    constructor ()
      ensures Value() == Box(0, 0, 0, 0)
    {
      x, y, h, w := 0, 0, 0, 0;
    }

    /** The constructor from a corner and a size; a negative height or width is a failed CHECK. */
    constructor Of(x: int, y: int, h: int, w: int)
      requires h >= 0 && w >= 0
      ensures Value() == Box(x, y, h, w)
    {
      this.x, this.y, this.h, this.w := x, y, h, w;
    }

    /**
     * The constructor from the top-left and bottom-right corners; a bottom-right corner above or
     * left of the top-left one is a failed CHECK.
     */
    constructor FromCorners(topLeft: Point, bottomRight: Point)
      requires bottomRight.y >= topLeft.y && bottomRight.x >= topLeft.x
      ensures Value() == Box(topLeft.x, topLeft.y, bottomRight.y - topLeft.y, bottomRight.x - topLeft.x)
      ensures Value().h >= 0 && Value().w >= 0
    {
      x := topLeft.x;
      y := topLeft.y;
      h := bottomRight.y - topLeft.y;
      w := bottomRight.x - topLeft.x;
    }

    /** The copy constructor. */
    constructor Copy(r: Rectangle)
      ensures Value() == r.Value()
    {
      x, y, h, w := r.x, r.y, r.h, r.w;
    }

    /** operator=: takes the other rectangle's value, and keeps its own on self-assignment. */
    method Assign(r: Rectangle)
      modifies this
      ensures Value() == old(r.Value())
    {
      if this == r {
        return;
      }
      x := r.x;
      y := r.y;
      h := r.h;
      w := r.w;
    }

    /** IoU: the source leaves it unimplemented and returns 0 for every pair. */
    function IoU(r: Rectangle): (z: int)
      ensures z == 0
    {
      0
    }

    /**
     * center(): (x + w·0.5, y + h·0.5) converted back to integers, so each half is rounded toward
     * zero. For a rectangle with a non-negative size the centre lies inside its closed extent. The
     * halving is exact, as the single-precision sum is while the coordinates stay below 2^24.
     */
    function Center(): (p: Point)
      reads this
      ensures h >= 0 ==> y <= p.y <= y + h
      ensures w >= 0 ==> x <= p.x <= x + w
      ensures 2 * x + w >= 0 ==> 0 <= 2 * x + w - 2 * p.x <= 1
      ensures 2 * x + w < 0 ==> 0 <= 2 * p.x - (2 * x + w) <= 1
    {
      Point(HalfTowardZero(2 * x + w), HalfTowardZero(2 * y + h))
    }

    /**
     * operator&=: the rectangle becomes its overlap with b. The source reads b's fields before it
     * writes the same field of its own, so b may be this rectangle.
     */
    method IntersectWith(b: Rectangle)
      modifies this
      ensures Value() == Intersection(old(Value()), old(b.Value()))
    {
      var x1 := Max(x, b.x);
      var y1 := Max(y, b.y);
      w := Min(x + w, b.x + b.w) - x1;
      h := Min(y + h, b.y + b.h) - y1;
      x := x1;
      y := y1;
      if w <= 0 || h <= 0 {
        x, y, h, w := 0, 0, 0, 0;
      }
    }
  }

  /** The box lies inside the image of the given extents. */
  predicate Inside(r: Box, sd: Dims)
  {
    r.x >= 0 && r.y >= 0 && r.x + r.w <= sd.w && r.y + r.h <= sd.h
  }

  /** The box covers the whole image (so both paths of safty_cut end in a plain clone). */
  predicate Spans(r: Box, sd: Dims)
  {
    r.x <= 0 && r.y <= 0 && r.x + r.w >= sd.w && r.y + r.h >= sd.h
  }

  /**
   * Element (n, c, i, j) of the region of interest: the source pixel (r.y + i, r.x + j) when it lies
   * in the image, zero otherwise.
   */
  ghost function RoiElement<D(0)>(src: Tensor<D>, r: Box, zero: D, n: int, c: int, i: int, j: int): D
    reads src, src.data
    requires src.Dense() && 0 <= n < src.Extents().n && 0 <= c < src.Extents().c
  {
    var sd := src.Extents();
    if 0 <= r.y + i < sd.h && 0 <= r.x + j < sd.w then src.At(n, c, r.y + i, r.x + j) else zero
  }

  /** What safty_cut_cpu leaves in dst once the device is the CPU. */
  ghost predicate IsRoi<D(0)>(result: Tensor<D>, src: Tensor<D>, r: Box, zero: D)
    reads result, result.data, src, src.data
    requires src.Dense()
  {
    var sd := src.Extents();
    r.h >= 0 && r.w >= 0 && result.Dense() && result.Extents() == Dims(sd.n, sd.c, r.h, r.w)
    && result.order == src.order && result.device == src.device
    && forall n, c, i, j | InRange(result.Extents(), n, c, i, j) :: result.At(n, c, i, j) == RoiElement(src, r, zero, n, c, i, j)
  }

  /**
   * safty_cut_cpu: the tensor dst holds afterwards. A tensor on a GPU device logs an error and
   * leaves dst as it was. Otherwise dst becomes a new tensor of the rectangle's size holding the
   * image pixels the rectangle covers and zero (Dtype(0), the parameter zero) where it reaches past
   * the image. An empty rectangle leaves dst as it was, unless it spans the whole (then empty) image.
   */
  method SaftyCut<D(0)>(src: Tensor<D>, dst: Tensor<D>, rect: Rectangle, zero: D) returns (result: Tensor<D>)
    requires src.Dense() && rect.h >= 0 && rect.w >= 0
    ensures src.device >= 0 ==> result == dst
    ensures src.device < 0 && !Spans(rect.Value(), src.Extents()) && (rect.h == 0 || rect.w == 0) ==> result == dst
    ensures src.device < 0 && (Spans(rect.Value(), src.Extents()) || (rect.h > 0 && rect.w > 0)) ==>
      fresh(result) && IsRoi(result, src, rect.Value(), zero)
  {
    if src.device >= 0 {
      result := dst;
      return;
    }
    var sd := src.Extents();
    if rect.x >= 0 && rect.y >= 0 && rect.x + rect.w <= src.Width() && rect.y + rect.h <= src.Height() {
      result := CutInside(src, dst, rect.Value(), zero);
    } else {
      result := CutPadded(src, dst, rect.Value(), zero);
    }
  }

  /** The rectangle inside the image: cut_border with the margins around the rectangle. */
  method CutInside<D(0)>(src: Tensor<D>, dst: Tensor<D>, r: Box, zero: D) returns (result: Tensor<D>)
    requires src.Dense() && r.h >= 0 && r.w >= 0 && Inside(r, src.Extents())
    ensures !Spans(r, src.Extents()) && (r.h == 0 || r.w == 0) ==> result == dst
    ensures Spans(r, src.Extents()) || (r.h > 0 && r.w > 0) ==> fresh(result) && IsRoi(result, src, r, zero)
  {
    result := CutBorders.CutBorder(src, dst, r.y, src.Height() - r.y - r.h, r.x, src.Width() - r.x - r.w);
  }

  /**
   * The rectangle reaching past the image: a zero border of exactly the overhang on each side
   * (make_border, constant), then cut_border of the padded image with the margins around the
   * rectangle.
   */
  method CutPadded<D(0)>(src: Tensor<D>, dst: Tensor<D>, r: Box, zero: D) returns (result: Tensor<D>)
    requires src.Dense() && r.h >= 0 && r.w >= 0 && !Inside(r, src.Extents())
    ensures !Spans(r, src.Extents()) && (r.h == 0 || r.w == 0) ==> result == dst
    ensures Spans(r, src.Extents()) || (r.h > 0 && r.w > 0) ==> fresh(result) && IsRoi(result, src, r, zero)
  {
    var sd := src.Extents();
    var top := Max(0, -r.y);
    var bottom := Max(r.y + r.h - sd.h, 0);
    var left := Max(0, -r.x);
    var right := Max(r.x + r.w - sd.w, 0);
    var temp := new Tensor(Dims(sd.n, sd.c, sd.h + top + bottom, sd.w + left + right), src.device, src.order, src.allocator);
    temp := MakeBorders.MakeBorder(src, temp, top, bottom, left, right, MakeBorders.BorderConstant, zero);
    result := CutPaddedImage(temp, dst, src, r, zero, top, left);
  }

  /** The padding as make_border leaves it: the source shifted by (top, left) in a zero frame. */
  ghost predicate PaddedBy<D(0)>(temp: Tensor<D>, src: Tensor<D>, zero: D, top: int, bottom: int, left: int, right: int)
    reads temp, temp.data, src, src.data
    requires src.Dense()
  {
    var sd := src.Extents();
    temp.Dense() && top >= 0 && bottom >= 0 && left >= 0 && right >= 0
    && temp.Extents() == Dims(sd.n, sd.c, sd.h + top + bottom, sd.w + left + right)
    && temp.order == src.order && temp.device == src.device
    && forall n, c, h, w | InRange(temp.Extents(), n, c, h, w) ::
      temp.At(n, c, h, w) == if top <= h < top + sd.h && left <= w < left + sd.w then src.At(n, c, h - top, w - left) else zero
  }

  /** The cut_border call of the padded path: margins around the rectangle, moved by the padding. */
  method CutPaddedImage<D(0)>(temp: Tensor<D>, dst: Tensor<D>, src: Tensor<D>, r: Box, zero: D, top: int, left: int) returns (result: Tensor<D>)
    requires src.Dense() && r.h >= 0 && r.w >= 0
    requires var sd := src.Extents();
      top == Max(0, -r.y) && left == Max(0, -r.x)
      && PaddedBy(temp, src, zero, top, Max(r.y + r.h - sd.h, 0), left, Max(r.x + r.w - sd.w, 0))
    ensures !Spans(r, src.Extents()) && (r.h == 0 || r.w == 0) ==> result == dst
    ensures Spans(r, src.Extents()) || (r.h > 0 && r.w > 0) ==> fresh(result) && IsRoi(result, src, r, zero)
  {
    var td := temp.Extents();
    result := CutBorders.CutBorder(temp, dst, r.y + top, td.h - r.y - r.h - top, r.x + left, td.w - r.x - r.w - left);
    if Spans(r, src.Extents()) || (r.h > 0 && r.w > 0) {
      PaddedRoi(result, temp, src, r, zero, top, left);
    }
  }

  /**
   * The padded image holds the source shifted by (top, left) in a zero frame, and the cut holds the
   * padded image shifted back by (r.y + top, r.x + left): together, the region of interest.
   */
  lemma PaddedRoi<D(0)>(result: Tensor<D>, temp: Tensor<D>, src: Tensor<D>, r: Box, zero: D, top: int, left: int)
    requires src.Dense() && result.Dense() && r.h >= 0 && r.w >= 0
    requires var sd := src.Extents(); PaddedBy(temp, src, zero, top, Max(r.y + r.h - sd.h, 0), left, Max(r.x + r.w - sd.w, 0))
    requires var sd := src.Extents();
      result.Extents() == Dims(sd.n, sd.c, r.h, r.w) && result.order == src.order && result.device == src.device
    requires forall n, c, i, j | InRange(result.Extents(), n, c, i, j) ::
      InRange(temp.Extents(), n, c, i + r.y + top, j + r.x + left)
      && result.At(n, c, i, j) == temp.At(n, c, i + r.y + top, j + r.x + left)
    ensures IsRoi(result, src, r, zero)
  {
  }
}
