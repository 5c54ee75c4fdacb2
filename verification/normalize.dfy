/** Conversion of a touch point in screen pixels to the image's unit frame. */
module PointNormalization {
  import opened Wrappers

  /** A touch point in the normalised frame: `u` across, `v` down. */
  datatype Point = Point(u: real, v: real)

  /** The `ValueError('Invalid screen resolution')` raised for a non-positive size. */
  datatype NormalizeError = InvalidResolution

  /**
   * `_normalize_point`: divides the pixel coordinates by the screen size.
   * It fails exactly when a dimension is not positive; otherwise the point it
   * returns scales back to the pixel point, so it is the quotient itself and
   * nothing is clamped.
   */
  function NormalizePoint(x: real, y: real, width: real, height: real): (r: Result<Point, NormalizeError>)
    ensures r.Err? <==> width <= 0.0 || height <= 0.0
    ensures r.Ok? ==> r.value.u * width == x && r.value.v * height == y
  {
    if width <= 0.0 || height <= 0.0 then Err(InvalidResolution)
    else Ok(Point(x / width, y / height))
  }

  /** A touch on the screen lands in the unit square. */
  lemma OnScreenLandsInUnitSquare(x: real, y: real, width: real, height: real)
    requires 0.0 < width && 0.0 < height
    requires 0.0 <= x <= width && 0.0 <= y <= height
    ensures NormalizePoint(x, y, width, height).Ok?
    ensures var p := NormalizePoint(x, y, width, height).value;
            0.0 <= p.u <= 1.0 && 0.0 <= p.v <= 1.0
  {
    var p := NormalizePoint(x, y, width, height).value;
    assert p.u * width == x && p.v * height == y;
  }

  /** No clamping: a touch beyond the right or bottom edge maps past 1.0. */
  lemma OffScreenIsNotClamped(x: real, y: real, width: real, height: real)
    requires 0.0 < width < x && 0.0 < height < y
    ensures NormalizePoint(x, y, width, height).Ok?
    ensures NormalizePoint(x, y, width, height).value.u > 1.0
    ensures NormalizePoint(x, y, width, height).value.v > 1.0
  {
    var p := NormalizePoint(x, y, width, height).value;
    assert p.u * width == x && p.v * height == y;
  }
}
