/**
 * Exact stand-ins for the CoreGraphics value types the widget computes with.
 * CGFloat becomes `real`; NaN, infinities and rounding are not modelled.
 */
module Geometry {

  datatype Size = Size(width: real, height: real) {
    predicate IsPositive() { width > 0.0 && height > 0.0 }
  }

  datatype Point = Point(x: real, y: real)

  datatype Rect = Rect(x: real, y: real, width: real, height: real)

  /** UIEdgeInsets */
  datatype Insets = Insets(top: real, left: real, bottom: real, right: real)

  /** The UIView.ContentMode cases the widget assigns. */
  datatype ContentMode = ScaleToFill | ScaleAspectFit | ScaleAspectFill

  const UNIT_RECT: Rect := Rect(0.0, 0.0, 1.0, 1.0)

  const ZERO_INSETS: Insets := Insets(0.0, 0.0, 0.0, 0.0)

  function Abs(x: real): real {
    if x < 0.0 then -x else x
  }

}
