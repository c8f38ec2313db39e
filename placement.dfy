/**
  Watermark placement (the coordinate arithmetic in `add_watermark`): the top-left
  corner at which the text box is drawn, from the image size, the measured text size
  and a named anchor. Python's `//` floors; Dafny's `/` by a positive divisor does too.
*/
module Placement {

  /** Distance in pixels between the text box and the image edges it is anchored to. */
  const Margin := 10

  /** Where the text box sits across the image. */
  datatype Column = Left | Middle | Right

  /** Where the text box sits down the image. */
  datatype Row = Top | Centre | Bottom

  /** The column each anchor name asks for; any other name is placed as `bottom_right` is. */
  function ColumnOf(position: string): Column
  {
    if position == "top_left" || position == "bottom_left" then Left
    else if position == "top_center" || position == "center" || position == "bottom_center" then Middle
    else Right
  }

  /** The row each anchor name asks for; any other name is placed as `bottom_right` is. */
  function RowOf(position: string): Row
  {
    if position == "top_left" || position == "top_center" || position == "top_right" then Top
    else if position == "center" then Centre
    else Bottom
  }

  /** `2 * x <= extent < 2 * x + 2`: `x` is the floor of half of `extent` (Python's `extent // 2`). */
  predicate IsFloorHalf(x: int, extent: int)
  {
    2 * x <= extent < 2 * x + 2
  }

  /**
    The draw coordinate `(x, y)` for an image of `imageWidth` x `imageHeight` and a text box
    of `textWidth` x `textHeight`. Left and top edges are `Margin` away from the image edge;
    right and bottom edges are `Margin` away from the far edge; centred axes split the spare
    room with floor division. Nothing is clamped.
  */
  function DrawOrigin(imageWidth: int, imageHeight: int, textWidth: int, textHeight: int, position: string): (r: (int, int))
    ensures ColumnOf(position) == Left ==> r.0 == Margin
    ensures ColumnOf(position) == Middle ==> IsFloorHalf(r.0, imageWidth - textWidth)
    ensures ColumnOf(position) == Right ==> r.0 + textWidth == imageWidth - Margin
    ensures RowOf(position) == Top ==> r.1 == Margin
    ensures RowOf(position) == Centre ==> IsFloorHalf(r.1, imageHeight - textHeight)
    ensures RowOf(position) == Bottom ==> r.1 + textHeight == imageHeight - Margin
  {
    if position == "top_left" then
      (10, 10)
    else if position == "top_center" then
      ((imageWidth - textWidth) / 2, 10)
    else if position == "top_right" then
      (imageWidth - textWidth - 10, 10)
    else if position == "center" then
      ((imageWidth - textWidth) / 2, (imageHeight - textHeight) / 2)
    else if position == "bottom_left" then
      (10, imageHeight - textHeight - 10)
    else if position == "bottom_center" then
      ((imageWidth - textWidth) / 2, imageHeight - textHeight - 10)
    else
      (imageWidth - textWidth - 10, imageHeight - textHeight - 10)
  }

  /** The seven anchor names the command line accepts. */
  const AnchorNames: set<string> :=
    {"top_left", "top_center", "top_right", "center", "bottom_left", "bottom_center", "bottom_right"}

  /** Every name outside the six explicit branches is placed exactly as `bottom_right` is. */
  lemma UnknownAnchorIsBottomRight(iw: int, ih: int, tw: int, th: int, position: string)
    requires position !in AnchorNames - {"bottom_right"}
    ensures DrawOrigin(iw, ih, tw, th, position) == DrawOrigin(iw, ih, tw, th, "bottom_right")
  {
  }

  /** The placement depends only on the column and row an anchor asks for. */
  lemma {:induction false} OriginDeterminedByColumnAndRow(iw: int, ih: int, tw: int, th: int, p: string, q: string)
    requires ColumnOf(p) == ColumnOf(q) && RowOf(p) == RowOf(q)
    ensures DrawOrigin(iw, ih, tw, th, p) == DrawOrigin(iw, ih, tw, th, q)
  {
    var a, b := DrawOrigin(iw, ih, tw, th, p), DrawOrigin(iw, ih, tw, th, q);
    if ColumnOf(p) == Middle {
      FloorHalfUnique(a.0, b.0, iw - tw);
    }
    if RowOf(p) == Centre {
      FloorHalfUnique(a.1, b.1, ih - th);
    }
  }

  lemma FloorHalfUnique(x: int, y: int, extent: int)
    requires IsFloorHalf(x, extent) && IsFloorHalf(y, extent)
    ensures x == y
  {
  }

  /**
    No clamping, axis by axis: text wider than the image gets a negative x unless it is
    left-anchored, and text taller than the image a negative y unless it is top-anchored.
  */
  lemma OversizedTextIsNotClamped(iw: int, ih: int, tw: int, th: int, position: string)
    ensures tw > iw && ColumnOf(position) != Left ==> DrawOrigin(iw, ih, tw, th, position).0 < 0
    ensures th > ih && RowOf(position) != Top ==> DrawOrigin(iw, ih, tw, th, position).1 < 0
  {
  }

  /** An image of 200 x 100 pixels with a text box of 40 x 10. */
  lemma Examples()
    ensures DrawOrigin(200, 100, 40, 10, "bottom_right") == (150, 80)
    ensures DrawOrigin(200, 100, 40, 10, "center") == (80, 45)
    ensures DrawOrigin(200, 100, 40, 10, "top_left") == (10, 10)
    ensures DrawOrigin(200, 100, 40, 10, "top_center") == (80, 10)
    ensures DrawOrigin(200, 100, 40, 10, "bottom_left") == (10, 80)
    ensures DrawOrigin(200, 100, 40, 10, "middle") == (150, 80)
  {
  }

  /** Centring floors toward minus infinity, as Python's `//` does, when the text is wider than the image. */
  lemma CentringFloorsNegativeRoom()
    ensures DrawOrigin(30, 30, 35, 35, "center") == (-3, -3)
  {
  }
}
