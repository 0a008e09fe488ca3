# FlowLayout placement engine, modelled in Dafny

This project models the core of `FlowLayout`, an Android `ViewGroup` that lays
its children out as a flow. In horizontal orientation it fills rows left to
right and wraps to a new row. In vertical orientation it fills columns top to
bottom and wraps to a new column.

Each child view is reduced to a `Views.Child` record: its measured width and
height and its four margins. The container's size (`mWidth`, `mHeight`) and its
paddings are inputs.

The model has four parts:

- `MaxScan` models the max-extent scan (`findMaxChildWidthAndHeight`). It is a
  running maximum of the children's occupied sizes, margins included. The scan
  starts from the value the field already holds and then clamps the result to
  the container size.
- `HorizontalFlow` models the walker of `layoutHorizontalFlow` as a function
  on prefixes of the child sequence. Lemmas give the wrap rule, the
  bottom-aligned rows a band apart, and the bounds.
- `VerticalFlow` is the mirror image for `layoutVerticalFlow`, with top-flush
  columns.
- `FlowLayoutView.FlowLayout` is the class. It has the source's fields, the
  children as a sequence and the laid-out rectangles as an array. Three of
  its methods are loops proved against the functions above:
  - `FindMaxChildWidthAndHeight`
  - `LayoutHorizontalFlow`
  - `LayoutVerticalFlow`

  The others update fields directly:
  - `OnLayout`, which records the paddings and calls the loops
  - `SetOrientation`
  - `OnMeasure`, which records the two sizes and the children's new
    measurements

The model follows the code. In these places the code does something other
than a cleaner flow layout would, and the model keeps the code's behaviour:

- There is no line spacing. Bands are exactly `maxChildHeight` tall (rows) or
  `maxChildWidth` wide (columns).
- The container's size is never derived from its content.
- `maxChildWidth` and `maxChildHeight` are never reset, so the maxima carry over
  from one pass to the next. A pass after the children shrank still reports
  the earlier, larger maximum (`MaxScan.ScanKeepsEarlierMaximum` on the scan,
  `FlowLayoutView.RemeasureKeepsEarlierMaxima` on the class).
- The wrap test runs for every child, including the first one on a fresh row
  or column. A first child wider (or taller) than the content box is therefore
  pushed one band on and leaves the first band empty. It is not dropped or
  resized.
- The rectangle handed to `layout` has a different size from the measured one:
  - In rows it is `width + rightMargin` wide and `height + bottomMargin` tall.
  - In columns it is `width - leftMargin` wide.

  These sizes are stated as they are (`HorizontalFlow.FrameSize`,
  `VerticalFlow.FrameSize`).
- `setOrientation` accepts any integer. An orientation other than `HORIZONTAL`
  (0) or `VERTICAL` (1) lays nothing out.

## Model

| member | source | states |
|---|---|---|
| MaxScan.RunningMax | app/src/main/java/io/github/agaghd/flowlayout/FlowLayout.java:160-168 | the accumulator after the scan loop is never below the field's starting value, nor below the last child's occupied size |
| MaxScan.ScannedMax | app/src/main/java/io/github/agaghd/flowlayout/FlowLayout.java:160-171 | the clamped maximum is at most the container size and never below min(old field value, container size) |
| MaxScan.RunningMaxIsMaximum | app/src/main/java/io/github/agaghd/flowlayout/FlowLayout.java:160-168 | the scan loop's accumulator is at least its starting field value and at least every child's occupied size (measured size plus both margins), and it equals one of these |
| MaxScan.RunningMaxKeepsDominantStart | app/src/main/java/io/github/agaghd/flowlayout/FlowLayout.java:166-167 | a starting value that no child's occupied size exceeds comes out of the scan loop unchanged |
| MaxScan.ScannedMaxBounds | app/src/main/java/io/github/agaghd/flowlayout/FlowLayout.java:160-171 | after the clamp the maximum is at most the container size, at least min(occupied size, container size) for every child, at least min(old field value, container size), and equal to one of these candidates |
| MaxScan.ScanKeepsEarlierMaximum | app/src/main/java/io/github/agaghd/flowlayout/FlowLayout.java:160-171 | the field is not reset (declared at line 29): when no child occupies more than the old value, the scan reports the old value clamped, not the children's own maximum |
| MaxScan.ScanIdempotent | app/src/main/java/io/github/agaghd/flowlayout/FlowLayout.java:160-171 | a second scan over the same children and container size leaves the maximum where the first put it |
| HorizontalFlow.Wraps | app/src/main/java/io/github/agaghd/flowlayout/FlowLayout.java:130-131 | at the left padding, the wrap test fires exactly when the child's occupied width is more than the row's width between the paddings |
| HorizontalFlow.Place | app/src/main/java/io/github/agaghd/flowlayout/FlowLayout.java:131-135 | after the wrap test the child either fits before the right padding or stands at the left padding; when the cursor moves at all, it moves to the left padding one band lower |
| HorizontalFlow.Frame | app/src/main/java/io/github/agaghd/flowlayout/FlowLayout.java:136-139 | the rectangle's bottom is the bottom of its row band, and it is width + rightMargin wide and height + bottomMargin tall |
| HorizontalFlow.Walk | app/src/main/java/io/github/agaghd/flowlayout/FlowLayout.java:122-141 | the walk gives exactly one rectangle per child |
| HorizontalFlow.WalkPrefix | app/src/main/java/io/github/agaghd/flowlayout/FlowLayout.java:118-143 | the walk emits exactly one rectangle per child; laying out a prefix gives the same rectangles as the whole walk, so no rectangle is revised later |
| HorizontalFlow.WalkPlaces | app/src/main/java/io/github/agaghd/flowlayout/FlowLayout.java:122-141 | rectangle i is (x + leftMargin, y + band - height - bottomMargin, x + occupied width, y + band), where (x, y) is the cursor left by children 0..i-1 after the wrap test |
| HorizontalFlow.CursorAfter | app/src/main/java/io/github/agaghd/flowlayout/FlowLayout.java:136-140 | after child i the cursor stands at that child's right edge, on the row whose bottom is the child's bottom: the cursor advanced by exactly the occupied width |
| HorizontalFlow.FirstChildWrapRule | app/src/main/java/io/github/agaghd/flowlayout/FlowLayout.java:130-139 | the first child goes to (left padding, start y + band) exactly when start x plus its occupied width exceeds width minus right padding, and otherwise stays at the start cursor |
| HorizontalFlow.WrapRule | app/src/main/java/io/github/agaghd/flowlayout/FlowLayout.java:130-140 | child i+1 starts a new row when child i's right edge plus its occupied width exceeds width minus right padding. It then sits at the left padding, one band (maxChildHeight) lower. Otherwise it abuts child i in the same row |
| HorizontalFlow.CursorBands | app/src/main/java/io/github/agaghd/flowlayout/FlowLayout.java:131-134 | the cursor's y ends exactly (number of wraps) x maxChildHeight below where it started |
| HorizontalFlow.Bands | app/src/main/java/io/github/agaghd/flowlayout/FlowLayout.java:131-139 | every child's bottom edge is the bottom of its row band: start y + band x (wraps among children 0..i) + band |
| HorizontalFlow.RowsDescend | app/src/main/java/io/github/agaghd/flowlayout/FlowLayout.java:131-139 | with a non-negative band, a later child never sits in a higher row |
| HorizontalFlow.FitsLine | app/src/main/java/io/github/agaghd/flowlayout/FlowLayout.java:131-140 | a child whose occupied width fits between the left padding and width minus right padding never extends past the right padding |
| HorizontalFlow.CursorRightOfOrigin | app/src/main/java/io/github/agaghd/flowlayout/FlowLayout.java:131-140 | with non-negative occupied widths and a start at or right of the left padding, the cursor never moves left of the left padding |
| HorizontalFlow.LeftEdgesInsidePadding | app/src/main/java/io/github/agaghd/flowlayout/FlowLayout.java:131-140 | under the same conditions no child's left margin begins left of the left padding |
| HorizontalFlow.OversizedFirstChild | app/src/main/java/io/github/agaghd/flowlayout/FlowLayout.java:131-139 | the wrap test is unconditional: a first child wider than the content box, starting at the left padding, is placed one band down, leaving row 0 empty; it is still placed at the left padding, width + rightMargin wide as every row child |
| HorizontalFlow.FrameSize | app/src/main/java/io/github/agaghd/flowlayout/FlowLayout.java:136-139 | each rectangle is width + rightMargin wide and height + bottomMargin tall |
| HorizontalFlow.TwoFitThenWrap | app/src/main/java/io/github/agaghd/flowlayout/FlowLayout.java:118-143 | three children of occupied width w, starting at the left padding of a row that holds two but not three (e.g. w = 50 in a row of 120): the first two share the row at x and x + w, the third goes to the left padding one band lower |
| VerticalFlow.Wraps | app/src/main/java/io/github/agaghd/flowlayout/FlowLayout.java:103-104 | at the top padding, the wrap test fires exactly when the child's occupied height is more than the column's height between the paddings |
| VerticalFlow.Place | app/src/main/java/io/github/agaghd/flowlayout/FlowLayout.java:104-108 | after the wrap test the child either fits above the bottom padding or stands at the top padding; when the cursor moves at all, it moves to the top padding one band to the right |
| VerticalFlow.Frame | app/src/main/java/io/github/agaghd/flowlayout/FlowLayout.java:109-112 | the rectangle starts at the cursor plus the left and top margins, and it is width - leftMargin wide and height tall |
| VerticalFlow.Walk | app/src/main/java/io/github/agaghd/flowlayout/FlowLayout.java:95-114 | the walk gives exactly one rectangle per child |
| VerticalFlow.WalkPrefix | app/src/main/java/io/github/agaghd/flowlayout/FlowLayout.java:91-116 | the walk emits exactly one rectangle per child; laying out a prefix gives the same rectangles as the whole walk |
| VerticalFlow.WalkPlaces | app/src/main/java/io/github/agaghd/flowlayout/FlowLayout.java:95-114 | rectangle i is (x + leftMargin, y + topMargin, x + width, y + topMargin + height), where (x, y) is the cursor left by children 0..i-1 after the wrap test |
| VerticalFlow.CursorAfter | app/src/main/java/io/github/agaghd/flowlayout/FlowLayout.java:109-113 | after child i the cursor's y is below that child's bottom margin (advanced by exactly the occupied height) and its x is unchanged |
| VerticalFlow.FirstChildWrapRule | app/src/main/java/io/github/agaghd/flowlayout/FlowLayout.java:103-112 | the first child goes to (start x + band, top padding) exactly when start y plus its occupied height exceeds height minus bottom padding, and otherwise stays at the start cursor |
| VerticalFlow.WrapRule | app/src/main/java/io/github/agaghd/flowlayout/FlowLayout.java:103-113 | child i+1 starts a new column when the end of child i's bottom margin plus its occupied height exceeds height minus bottom padding. It then sits at the top padding, one band (maxChildWidth) to the right. Otherwise it sits right below child i in the same column |
| VerticalFlow.CursorBands | app/src/main/java/io/github/agaghd/flowlayout/FlowLayout.java:104-107 | the cursor's x ends exactly (number of wraps) x maxChildWidth right of where it started |
| VerticalFlow.Bands | app/src/main/java/io/github/agaghd/flowlayout/FlowLayout.java:104-112 | every child's column starts at start x + band x (wraps among children 0..i) |
| VerticalFlow.ColumnsAdvance | app/src/main/java/io/github/agaghd/flowlayout/FlowLayout.java:104-112 | with a non-negative band, a later child never sits in a column further left |
| VerticalFlow.FitsColumn | app/src/main/java/io/github/agaghd/flowlayout/FlowLayout.java:104-113 | a child whose occupied height fits between the top padding and height minus bottom padding never extends, bottom margin included, past the bottom padding |
| VerticalFlow.CursorBelowOrigin | app/src/main/java/io/github/agaghd/flowlayout/FlowLayout.java:104-113 | with non-negative occupied heights and a start at or below the top padding, the cursor never moves above the top padding |
| VerticalFlow.TopEdgesInsidePadding | app/src/main/java/io/github/agaghd/flowlayout/FlowLayout.java:104-113 | under the same conditions no child's top margin begins above the top padding |
| VerticalFlow.OversizedFirstChild | app/src/main/java/io/github/agaghd/flowlayout/FlowLayout.java:104-112 | a first child taller than the content box, starting at the top padding, is placed one band to the right, leaving column 0 empty; it is still placed at the top padding with its height unchanged |
| VerticalFlow.FrameSize | app/src/main/java/io/github/agaghd/flowlayout/FlowLayout.java:109-112 | each rectangle is height tall and width - leftMargin wide (the right edge leaves out the left margin) |
| VerticalFlow.OneFitsThenWrap | app/src/main/java/io/github/agaghd/flowlayout/FlowLayout.java:91-116 | two children of occupied height h, starting at the top padding of a column that holds one but not two (e.g. h = 60 in a column of 100): the second goes to the top padding one band to the right |
| FlowLayoutView.FlowLayout.constructor | app/src/main/java/io/github/agaghd/flowlayout/FlowLayout.java:25-30 | a new layout is HORIZONTAL with the cursor, sizes, maxima and paddings all 0, and no layout requested |
| FlowLayoutView.FlowLayout.OnMeasure | app/src/main/java/io/github/agaghd/flowlayout/FlowLayout.java:64-73 | mWidth and mHeight become the sizes handed down by the parent, and the children now report their new measurements (same children, same count) |
| FlowLayoutView.FlowLayout.SetOrientation | app/src/main/java/io/github/agaghd/flowlayout/FlowLayout.java:150-155 | when the value equals the current orientation nothing changes and no layout is requested; otherwise the orientation becomes the value and a layout is requested |
| FlowLayoutView.FlowLayout.FindMaxChildWidthAndHeight | app/src/main/java/io/github/agaghd/flowlayout/FlowLayout.java:160-172 | both maxima become the running maximum of the children's occupied sizes, starting from their old values and clamped to mHeight / mWidth (the properties are the MaxScan lemmas) |
| FlowLayoutView.FlowLayout.LayoutHorizontalFlow | app/src/main/java/io/github/agaghd/flowlayout/FlowLayout.java:118-143 | the rectangles and the final cursor are those of the horizontal walk from the old cursor over all children (the properties are the HorizontalFlow lemmas) |
| FlowLayoutView.FlowLayout.LayoutVerticalFlow | app/src/main/java/io/github/agaghd/flowlayout/FlowLayout.java:91-116 | the rectangles and the final cursor are those of the vertical walk from the old cursor over all children (the properties are the VerticalFlow lemmas) |
| FlowLayoutView.FlowLayout.OnLayout | app/src/main/java/io/github/agaghd/flowlayout/FlowLayout.java:76-89 | the paddings are recorded, the cursor starts at (left padding, top padding) and the maxima are rescanned. Orientation 0 runs the horizontal walk and 1 the vertical walk over every child in order. Any other value leaves the rectangles untouched |
| FlowLayoutView.RelayoutIsStable | app/src/main/java/io/github/agaghd/flowlayout/FlowLayout.java:76-89 | two layout passes with nothing changed in between give every child the same rectangle. That rectangle is the one the horizontal or vertical walk computes from (left padding, top padding), with the maxima scanned once from their old values; any other orientation keeps the old rectangles. The maxima stay where the first pass put them |
| FlowLayoutView.RemeasureKeepsEarlierMaxima | app/src/main/java/io/github/agaghd/flowlayout/FlowLayout.java:64-89 | when the children are re-measured no larger than the current maxima, the next layout pass reports the old maxima clamped to the new container size, not the children's own maxima |

## Left out

- The Android constructors and `init`, which read the orientation attribute through `TypedArray`: framework resource plumbing. The Dafny constructor sets the fields' initial values.
- `onMeasure`'s calls to `child.measure` and `super.onMeasure`: foreign framework calls. What the children report after `child.measure` is the `measured` parameter of `OnMeasure`.
- `getPaddingLeft` and the other padding getters become parameters of `OnLayout`. `onLayout`'s `changed, l, t, r, b` arguments are unused by the source and are left out.
- The `LayoutParams` generators and the nested `LayoutParams` class: type plumbing. A child's margins are fields of `Views.Child`.
- Adding or removing child views: the number of children is fixed for each `FlowLayout` object (only their measurements change).
- The `Log.i` call in the scan: logging only.
- The real effect of `requestLayout()`: it is a boolean `layoutRequested` flag.
- Line spacing, and sizing the container from its content (a dry-run wrap pass that derives the free dimension): the code has neither.
- `MainActivity.java`: a demo screen with randomly sized views, with no layout logic.
- Java's 32-bit `int` overflow: all arithmetic is on unbounded integers. The model assumes that sizes, margins, paddings and cursor sums stay within `int` range.
