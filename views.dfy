/**
 * The values the flow layout works on: a child view reduced to its measured
 * size and its margins, the rectangle a child is laid out in, the cursor the
 * walkers move, and the track a walker wraps against.
 */
module Views {

  /** A child view as the layout sees it after measuring: the measured width
      and height and the four margins of its MarginLayoutParams. */
  datatype Child = Child(width: int, height: int,
                         leftMargin: int, topMargin: int, rightMargin: int, bottomMargin: int)
  {
    /** Width the child occupies on a row: measured width plus left and right margins. */
    function OccupiedWidth(): int { width + leftMargin + rightMargin }

    /** Height the child occupies in a column: measured height plus top and bottom margins. */
    function OccupiedHeight(): int { height + topMargin + bottomMargin }
  }

  /** The four edges handed to View.layout(left, top, right, bottom). */
  datatype Rect = Rect(left: int, top: int, right: int, bottom: int)

  /** The layout cursor: the fields mHorizontalWidth (x) and mVerticalHeight (y). */
  datatype Cursor = Cursor(x: int, y: int)

  /** What one walk over the children produces: a rectangle per child, in
      child order, and where the cursor ends up. */
  datatype Pass = Pass(rects: seq<Rect>, cursor: Cursor)

  /** What a walker wraps against, measured along its flow axis: a new band
      starts at `origin`, a child must end at or before `limit`, and each band
      is `band` thick on the other axis. */
  datatype Track = Track(origin: int, limit: int, band: int)

  /** Java's Math.max on int. */
  function Max(a: int, b: int): int { if a >= b then a else b }

  /** Java's Math.min on int. */
  function Min(a: int, b: int): int { if a <= b then a else b }
}
