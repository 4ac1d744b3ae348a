/** The target size that `resize_image` asks the image library for: each side
    of the decoded image divided by the scale factor. The resampling itself
    belongs to the image library and is not modelled; the downscaled grid is
    an input of the art assembler. */
module Dimensions {

  /** An unsigned 32-bit integer, the type of image sides and of the scale. */
  type U32 = x: int | 0 <= x < 0x1_0000_0000

  /** The scale factor `main` passes: fixed, not configurable. */
  const Scale: U32 := 4

  /** Width and height of an image, in pixels. */
  datatype Size = Size(width: U32, height: U32)

  /** Requested size of the downscaled image: each side floor-divided by the
      scale. Unsigned division by zero aborts the program, so the scale must
      be positive. */
  function Requested(image: Size, scale: U32): (target: Size)
    requires scale > 0
    ensures target.width * scale <= image.width < (target.width + 1) * scale
    ensures target.height * scale <= image.height < (target.height + 1) * scale
  {
    Size(image.width / scale, image.height / scale)
  }

  /** With the fixed factor 4, each requested side is the floor of a quarter of
      the original, never larger than it, and zero exactly when the original
      side is below 4. */
  lemma RequestedWithFixedScale(image: Size)
    ensures var target := Requested(image, Scale);
            && 4 * target.width <= image.width < 4 * target.width + 4
            && 4 * target.height <= image.height < 4 * target.height + 4
            && target.width <= image.width && target.height <= image.height
            && (target.width == 0 <==> image.width < 4)
            && (target.height == 0 <==> image.height < 4)
  {
  }

  /** A larger original never requests a smaller target, side by side. */
  lemma RequestedMonotone(a: Size, b: Size, scale: U32)
    requires scale > 0
    requires a.width <= b.width && a.height <= b.height
    ensures Requested(a, scale).width <= Requested(b, scale).width
    ensures Requested(a, scale).height <= Requested(b, scale).height
  {
    var ta, tb := Requested(a, scale), Requested(b, scale);
    QuotientMonotone(a.width, b.width, scale, ta.width, tb.width);
    QuotientMonotone(a.height, b.height, scale, ta.height, tb.height);
  }

  lemma QuotientMonotone(x: int, y: int, d: int, qx: int, qy: int)
    requires 0 <= x <= y && d > 0
    requires qx * d <= x && y < (qy + 1) * d
    ensures qx <= qy
  {
    assert qx * d < (qy + 1) * d;
    MulLessCancel(qx, qy + 1, d);
  }

  lemma MulLessCancel(a: int, b: int, d: int)
    requires d > 0 && a * d < b * d
    ensures a < b
  {
    assert (b - a) * d == b * d - a * d > 0;
  }

  /** Requesting the size of the fixed-factor reduction of a `4w x 4h` image
      asks for exactly `w x h`. */
  lemma RequestedExactMultiple(w: U32, h: U32)
    requires 4 * w < 0x1_0000_0000 && 4 * h < 0x1_0000_0000
    ensures Requested(Size(4 * w, 4 * h), Scale) == Size(w, h)
  {
  }
}
