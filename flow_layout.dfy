/**
 * The FlowLayout view group: its fields, the max-extent scan, the two flow
 * walkers, the layout pass that drives them and the orientation setter, each
 * proved against the functions of MaxScan, HorizontalFlow and VerticalFlow.
 */
module FlowLayoutView {
  import opened Views
  import MaxScan
  import HorizontalFlow
  import VerticalFlow

  const HORIZONTAL: int := 0
  const VERTICAL: int := 1

  class FlowLayout {
    var mOrientation: int
    var mHorizontalWidth: int
    var mVerticalHeight: int
    var mWidth: int
    var mHeight: int
    var maxChildHeight: int
    var maxChildWidth: int
    var mPaddingLeft: int
    var mPaddingRight: int
    var mPaddingTop: int
    var mPaddingBottom: int
    /** Set when requestLayout() has been called. */
    var layoutRequested: bool

    /** The child views, in index order, with the sizes they reported when
        last measured. */
    var children: seq<Child>
    /** frames[i] holds the last rectangle handed to children[i].layout. */
    const frames: array<Rect>

    ghost predicate Valid()
      reads this
    {
      frames.Length == |children|
    }

    /** The cursor fields as one value. */
    function CursorPos(): Cursor
      reads this
    {
      Cursor(mHorizontalWidth, mVerticalHeight)
    }

    /** What the horizontal walker wraps against: rows start at the left
        padding, end at the width minus the right padding, and are
        maxChildHeight tall. */
    function HorizontalTrack(): Track
      reads this
    {
      Track(mPaddingLeft, mWidth - mPaddingRight, maxChildHeight)
    }

    /** What the vertical walker wraps against: columns start at the top
        padding, end at the height minus the bottom padding, and are
        maxChildWidth wide. */
    function VerticalTrack(): Track
      reads this
    {
      Track(mPaddingTop, mHeight - mPaddingBottom, maxChildWidth)
    }

    /** A fresh layout over `children`, with the fields' initial values. */
    constructor (children: seq<Child>)
      ensures Valid() && fresh(frames)
      ensures this.children == children
      ensures mOrientation == HORIZONTAL && !layoutRequested
      ensures CursorPos() == Cursor(0, 0)
      ensures mWidth == 0 && mHeight == 0 && maxChildHeight == 0 && maxChildWidth == 0
      ensures mPaddingLeft == 0 && mPaddingRight == 0 && mPaddingTop == 0 && mPaddingBottom == 0
    {
      this.children := children;
      frames := new Rect[|children|](_ => Rect(0, 0, 0, 0));
      mOrientation := HORIZONTAL;
      mHorizontalWidth, mVerticalHeight := 0, 0;
      mWidth, mHeight := 0, 0;
      maxChildHeight, maxChildWidth := 0, 0;
      mPaddingLeft, mPaddingRight, mPaddingTop, mPaddingBottom := 0, 0, 0, 0;
      layoutRequested := false;
    }

    /** Records the container size handed down by the parent (the sizes of
        the two MeasureSpecs) and re-measures every child: `measured` holds,
        in index order, the sizes and margins the same children now report. */
    method OnMeasure(widthSize: int, heightSize: int, measured: seq<Child>)
      requires Valid()
      requires |measured| == |children|
      modifies this`mWidth, this`mHeight, this`children
      ensures Valid()
      ensures mWidth == widthSize && mHeight == heightSize
      ensures children == measured
    {
      mWidth := widthSize;
      mHeight := heightSize;
      children := measured;
    }

    /** Changes the orientation and requests a layout, unless the orientation
        is already the one asked for. Any value is accepted. */
    method SetOrientation(orientation: int)
      modifies this`mOrientation, this`layoutRequested
      ensures old(mOrientation) == orientation ==>
        mOrientation == old(mOrientation) && layoutRequested == old(layoutRequested)
      ensures old(mOrientation) != orientation ==> mOrientation == orientation && layoutRequested
    {
      if mOrientation != orientation {
        mOrientation := orientation;
        layoutRequested := true;
      }
    }

    /** Raises the two maxima to the largest occupied sizes of the children,
        starting from the values they already hold, then clamps them to the
        container size. */
    method FindMaxChildWidthAndHeight()
      modifies this`maxChildHeight, this`maxChildWidth
      ensures maxChildHeight == MaxScan.ScannedMax(old(maxChildHeight), children, MaxScan.Height, mHeight)
      ensures maxChildWidth == MaxScan.ScannedMax(old(maxChildWidth), children, MaxScan.Width, mWidth)
    {
      var n := |children|;
      for i := 0 to n
        invariant maxChildHeight == MaxScan.RunningMax(old(maxChildHeight), children[..i], MaxScan.Height)
        invariant maxChildWidth == MaxScan.RunningMax(old(maxChildWidth), children[..i], MaxScan.Width)
      {
        var child := children[i];
        maxChildHeight := Max(maxChildHeight, child.height + child.topMargin + child.bottomMargin);
        maxChildWidth := Max(maxChildWidth, child.width + child.leftMargin + child.rightMargin);
        assert children[..i + 1][..i] == children[..i];
      }
      assert children[..n] == children;
      maxChildHeight := Min(maxChildHeight, mHeight);
      maxChildWidth := Min(maxChildWidth, mWidth);
    }

    /** Lays the children out top to bottom from the current cursor, moving
        to a new column when a child would pass the bottom padding. */
    method LayoutVerticalFlow()
      requires Valid()
      modifies this`mHorizontalWidth, this`mVerticalHeight, frames
      ensures frames[..] == VerticalFlow.Walk(old(CursorPos()), children, VerticalTrack()).rects
      ensures CursorPos() == VerticalFlow.Walk(old(CursorPos()), children, VerticalTrack()).cursor
    {
      ghost var start, t := CursorPos(), VerticalTrack();
      var childCount := |children|;
      if childCount > 0 {
        for i := 0 to childCount
          invariant frames[..i] == VerticalFlow.Walk(start, children[..i], t).rects
          invariant CursorPos() == VerticalFlow.Walk(start, children[..i], t).cursor
        {
          var child := children[i];
          ghost var p := VerticalFlow.Place(CursorPos(), child, t);
          var totalHeight := child.height + child.topMargin + child.bottomMargin;
          if mVerticalHeight + totalHeight > mHeight - mPaddingBottom {
            mVerticalHeight := mPaddingTop;
            mHorizontalWidth := mHorizontalWidth + maxChildWidth;
          }
          frames[i] := Rect(mHorizontalWidth + child.leftMargin,
                            mVerticalHeight + child.topMargin,
                            mHorizontalWidth + child.width,
                            mVerticalHeight + child.height + child.topMargin);
          assert CursorPos() == p && frames[i] == VerticalFlow.Frame(p, child);
          mVerticalHeight := mVerticalHeight + totalHeight;
          assert children[..i + 1][..i] == children[..i];
        }
        assert children[..childCount] == children;
        assert frames[..childCount] == frames[..];
      }
    }

    /** Lays the children out left to right from the current cursor, moving
        to a new row when a child would pass the right padding; each child is
        bottom-aligned in its row. */
    method LayoutHorizontalFlow()
      requires Valid()
      modifies this`mHorizontalWidth, this`mVerticalHeight, frames
      ensures frames[..] == HorizontalFlow.Walk(old(CursorPos()), children, HorizontalTrack()).rects
      ensures CursorPos() == HorizontalFlow.Walk(old(CursorPos()), children, HorizontalTrack()).cursor
    {
      ghost var start, t := CursorPos(), HorizontalTrack();
      var childCount := |children|;
      if childCount > 0 {
        for i := 0 to childCount
          invariant frames[..i] == HorizontalFlow.Walk(start, children[..i], t).rects
          invariant CursorPos() == HorizontalFlow.Walk(start, children[..i], t).cursor
        {
          var child := children[i];
          ghost var p := HorizontalFlow.Place(CursorPos(), child, t);
          var totalWidth := child.width + child.leftMargin + child.rightMargin;
          if mHorizontalWidth + totalWidth > mWidth - mPaddingRight {
            mHorizontalWidth := mPaddingLeft;
            mVerticalHeight := mVerticalHeight + maxChildHeight;
          }
          frames[i] := Rect(mHorizontalWidth + child.leftMargin,
                            mVerticalHeight + maxChildHeight - child.height - child.bottomMargin,
                            mHorizontalWidth + totalWidth,
                            mVerticalHeight + maxChildHeight);
          assert CursorPos() == p && frames[i] == HorizontalFlow.Frame(p, child, t.band);
          mHorizontalWidth := mHorizontalWidth + totalWidth;
          assert children[..i + 1][..i] == children[..i];
        }
        assert children[..childCount] == children;
        assert frames[..childCount] == frames[..];
      }
    }

    /** One layout pass: takes the paddings, puts the cursor at the padding
        origin, runs the max-extent scan and walks the children in the
        current orientation; any orientation other than HORIZONTAL or
        VERTICAL lays nothing out. */
    method OnLayout(paddingLeft: int, paddingTop: int, paddingRight: int, paddingBottom: int)
      requires Valid()
      modifies this, frames
      ensures Valid()
      ensures mPaddingLeft == paddingLeft && mPaddingTop == paddingTop
      ensures mPaddingRight == paddingRight && mPaddingBottom == paddingBottom
      ensures mOrientation == old(mOrientation) && layoutRequested == old(layoutRequested)
      ensures mWidth == old(mWidth) && mHeight == old(mHeight) && children == old(children)
      ensures maxChildHeight == MaxScan.ScannedMax(old(maxChildHeight), children, MaxScan.Height, mHeight)
      ensures maxChildWidth == MaxScan.ScannedMax(old(maxChildWidth), children, MaxScan.Width, mWidth)
      ensures mOrientation == HORIZONTAL ==>
        var pass := HorizontalFlow.Walk(Cursor(paddingLeft, paddingTop), children, HorizontalTrack());
        frames[..] == pass.rects && CursorPos() == pass.cursor
      ensures mOrientation == VERTICAL ==>
        var pass := VerticalFlow.Walk(Cursor(paddingLeft, paddingTop), children, VerticalTrack());
        frames[..] == pass.rects && CursorPos() == pass.cursor
      ensures mOrientation != HORIZONTAL && mOrientation != VERTICAL ==>
        frames[..] == old(frames[..]) && CursorPos() == Cursor(paddingLeft, paddingTop)
    {
      mPaddingLeft := paddingLeft;
      mPaddingRight := paddingRight;
      mPaddingTop := paddingTop;
      mPaddingBottom := paddingBottom;
      mHorizontalWidth := mPaddingLeft;
      mVerticalHeight := mPaddingTop;
      FindMaxChildWidthAndHeight();
      if mOrientation == HORIZONTAL {
        LayoutHorizontalFlow();
      } else if mOrientation == VERTICAL {
        LayoutVerticalFlow();
      }
    }
  }

  /** Two layout passes with nothing changed in between give every child the
      same rectangle, the one the first pass computed from the old maxima,
      and leave the maxima where the first pass put them. */
  method RelayoutIsStable(f: FlowLayout, paddingLeft: int, paddingTop: int, paddingRight: int, paddingBottom: int)
    returns (first: seq<Rect>)
    requires f.Valid()
    modifies f, f.frames
    ensures f.children == old(f.children) && f.mOrientation == old(f.mOrientation)
    ensures f.maxChildHeight == MaxScan.ScannedMax(old(f.maxChildHeight), f.children, MaxScan.Height, f.mHeight)
    ensures f.maxChildWidth == MaxScan.ScannedMax(old(f.maxChildWidth), f.children, MaxScan.Width, f.mWidth)
    ensures f.mOrientation == HORIZONTAL ==>
      first == HorizontalFlow.Walk(Cursor(paddingLeft, paddingTop), f.children,
                                   Track(paddingLeft, old(f.mWidth) - paddingRight, f.maxChildHeight)).rects
    ensures f.mOrientation == VERTICAL ==>
      first == VerticalFlow.Walk(Cursor(paddingLeft, paddingTop), f.children,
                                 Track(paddingTop, old(f.mHeight) - paddingBottom, f.maxChildWidth)).rects
    ensures f.mOrientation != HORIZONTAL && f.mOrientation != VERTICAL ==> first == old(f.frames[..])
    ensures f.frames[..] == first
  {
    f.OnLayout(paddingLeft, paddingTop, paddingRight, paddingBottom);
    first := f.frames[..];
    ghost var height, width := f.maxChildHeight, f.maxChildWidth;
    MaxScan.ScanIdempotent(old(f.maxChildHeight), f.children, MaxScan.Height, f.mHeight);
    MaxScan.ScanIdempotent(old(f.maxChildWidth), f.children, MaxScan.Width, f.mWidth);
    f.OnLayout(paddingLeft, paddingTop, paddingRight, paddingBottom);
    assert f.maxChildHeight == height && f.maxChildWidth == width;
  }

  /** The maxima are not reset between passes: after the children are
      re-measured smaller, the next pass still reports the earlier maxima
      (clamped to the new container size), not the children's own. */
  method RemeasureKeepsEarlierMaxima(f: FlowLayout, widthSize: int, heightSize: int, measured: seq<Child>,
                                     paddingLeft: int, paddingTop: int, paddingRight: int, paddingBottom: int)
    requires f.Valid() && |measured| == |f.children|
    requires forall i :: 0 <= i < |measured| ==> measured[i].OccupiedWidth() <= f.maxChildWidth
    requires forall i :: 0 <= i < |measured| ==> measured[i].OccupiedHeight() <= f.maxChildHeight
    modifies f, f.frames
    ensures f.children == measured
    ensures f.maxChildWidth == Min(old(f.maxChildWidth), widthSize)
    ensures f.maxChildHeight == Min(old(f.maxChildHeight), heightSize)
  {
    f.OnMeasure(widthSize, heightSize, measured);
    MaxScan.ScanKeepsEarlierMaximum(f.maxChildWidth, measured, MaxScan.Width, widthSize);
    MaxScan.ScanKeepsEarlierMaximum(f.maxChildHeight, measured, MaxScan.Height, heightSize);
    f.OnLayout(paddingLeft, paddingTop, paddingRight, paddingBottom);
  }
}
