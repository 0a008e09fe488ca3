/**
 * The vertical walker of FlowLayout.layoutVerticalFlow as a function of the
 * children, the starting cursor and the track (mPaddingTop,
 * mHeight - mPaddingBottom, maxChildWidth), and what it guarantees: one
 * rectangle per child in order, the wrap rule, top-flush columns set one band
 * apart.
 */
module VerticalFlow {
  import opened Views

  /** The wrap test, applied to every child whatever the cursor position. */
  predicate Wraps(at: Cursor, c: Child, t: Track): (b: bool)
    ensures at.y == t.origin ==> (b <==> c.OccupiedHeight() > t.limit - t.origin)
  {
    at.y + c.OccupiedHeight() > t.limit
  }

  /** Where the cursor stands when child `c` is laid out: the top of the
      next column when the wrap test fires, otherwise unchanged. */
  function Place(at: Cursor, c: Child, t: Track): (r: Cursor)
    ensures r.y + c.OccupiedHeight() <= t.limit || r.y == t.origin
    ensures r != at ==> r.y == t.origin && r.x == at.x + t.band
  {
    if Wraps(at, c, t) then Cursor(at.x + t.band, t.origin) else at
  }

  /** The rectangle given to a child laid out at cursor `p`: flush with the
      top of its slot below the top margin; the right edge is the cursor plus
      the measured width, without the left margin. */
  function Frame(p: Cursor, c: Child): (r: Rect)
    ensures r.left - c.leftMargin == p.x && r.top - c.topMargin == p.y
    ensures r.right - r.left == c.width - c.leftMargin && r.bottom - r.top == c.height
  {
    Rect(p.x + c.leftMargin, p.y + c.topMargin, p.x + c.width, p.y + c.height + c.topMargin)
  }

  /** The walk over `cs` from `start`: each child is placed after the wrap
      test and the cursor then moves down by its occupied height. */
  function Walk(start: Cursor, cs: seq<Child>, t: Track): (r: Pass)
    ensures |r.rects| == |cs|
    decreases |cs|
  {
    if cs == [] then Pass([], start)
    else
      var prev := Walk(start, cs[..|cs| - 1], t);
      var c := cs[|cs| - 1];
      var p := Place(prev.cursor, c, t);
      Pass(prev.rects + [Frame(p, c)], Cursor(p.x, p.y + c.OccupiedHeight()))
  }

  /** How many children of `cs` started a new column. */
  function WrapCount(start: Cursor, cs: seq<Child>, t: Track): nat
    decreases |cs|
  {
    if cs == [] then 0
    else
      var prev := Walk(start, cs[..|cs| - 1], t);
      WrapCount(start, cs[..|cs| - 1], t) + if Wraps(prev.cursor, cs[|cs| - 1], t) then 1 else 0
  }

  /** Walking a prefix of the children lays them out exactly as the whole
      walk does: one rectangle per child, never revised later. */
  lemma {:induction false} WalkPrefix(start: Cursor, cs: seq<Child>, t: Track, j: nat)
    requires j <= |cs|
    ensures |Walk(start, cs, t).rects| == |cs|
    ensures Walk(start, cs[..j], t).rects == Walk(start, cs, t).rects[..j]
    decreases |cs|
  {
    if cs == [] {
    } else if j == |cs| {
      assert cs[..j] == cs;
      WalkPrefix(start, cs[..|cs| - 1], t, 0);
    } else {
      var init := cs[..|cs| - 1];
      assert init[..j] == cs[..j];
      WalkPrefix(start, init, t, j);
    }
  }

  /** Every child is laid out exactly once, in index order: rectangle i is
      the frame of child i at the cursor left by children 0..i-1, after the
      wrap test. */
  lemma WalkPlaces(start: Cursor, cs: seq<Child>, t: Track)
    ensures |Walk(start, cs, t).rects| == |cs|
    ensures forall i :: 0 <= i < |cs| ==>
      Walk(start, cs, t).rects[i] == Frame(Place(Walk(start, cs[..i], t).cursor, cs[i], t), cs[i])
  {
    forall i | 0 <= i < |cs|
      ensures Walk(start, cs, t).rects[i] == Frame(Place(Walk(start, cs[..i], t).cursor, cs[i], t), cs[i])
    {
      WalkPlace(start, cs, t, i);
    }
  }

  /** One index of WalkPlaces. */
  lemma WalkPlace(start: Cursor, cs: seq<Child>, t: Track, i: nat)
    requires i < |cs|
    ensures |Walk(start, cs, t).rects| == |cs|
    ensures Walk(start, cs, t).rects[i] == Frame(Place(Walk(start, cs[..i], t).cursor, cs[i], t), cs[i])
  {
    WalkPrefix(start, cs, t, i + 1);
    assert cs[..i + 1][..i] == cs[..i];
  }

  /** After child i the cursor stands below its bottom margin, in the column
      whose left edge is where child i's left margin begins. */
  lemma CursorAfter(start: Cursor, cs: seq<Child>, t: Track, i: nat)
    requires i < |cs|
    ensures |Walk(start, cs, t).rects| == |cs|
    ensures Walk(start, cs[..i + 1], t).cursor
            == Cursor(Walk(start, cs, t).rects[i].left - cs[i].leftMargin,
                      Walk(start, cs, t).rects[i].bottom + cs[i].bottomMargin)
  {
    WalkPlaces(start, cs, t);
    assert cs[..i + 1][..i] == cs[..i];
  }

  /** The first child starts a new column exactly when the starting cursor
      plus its occupied height passes the limit. */
  lemma FirstChildWrapRule(start: Cursor, cs: seq<Child>, t: Track)
    requires |cs| > 0
    ensures |Walk(start, cs, t).rects| == |cs|
    ensures start.y + cs[0].OccupiedHeight() > t.limit ==>
      Walk(start, cs, t).rects[0] == Frame(Cursor(start.x + t.band, t.origin), cs[0])
    ensures start.y + cs[0].OccupiedHeight() <= t.limit ==>
      Walk(start, cs, t).rects[0] == Frame(start, cs[0])
  {
    WalkPlaces(start, cs, t);
    assert cs[..0] == [];
  }

  /** The wrap rule read off the output: child i+1 goes to the top of the
      next column (one band to the right) exactly when the end of child i's
      bottom margin plus its own occupied height passes the limit; otherwise
      it sits right below child i in the same column. */
  lemma WrapRule(start: Cursor, cs: seq<Child>, t: Track, i: nat)
    requires i + 1 < |cs|
    ensures |Walk(start, cs, t).rects| == |cs|
    ensures var r := Walk(start, cs, t).rects;
      r[i].bottom + cs[i].bottomMargin + cs[i + 1].OccupiedHeight() > t.limit ==>
        r[i + 1].top == t.origin + cs[i + 1].topMargin
        && r[i + 1].left - cs[i + 1].leftMargin == r[i].left - cs[i].leftMargin + t.band
    ensures var r := Walk(start, cs, t).rects;
      r[i].bottom + cs[i].bottomMargin + cs[i + 1].OccupiedHeight() <= t.limit ==>
        r[i + 1].top == r[i].bottom + cs[i].bottomMargin + cs[i + 1].topMargin
        && r[i + 1].left - cs[i + 1].leftMargin == r[i].left - cs[i].leftMargin
  {
    WalkPlaces(start, cs, t);
    CursorAfter(start, cs, t, i);
  }

  /** The cursor ends exactly WrapCount bands right of where it started. */
  lemma {:induction false} CursorBands(start: Cursor, cs: seq<Child>, t: Track)
    ensures Walk(start, cs, t).cursor.x == start.x + t.band * WrapCount(start, cs, t)
    decreases |cs|
  {
    if cs != [] {
      var init := cs[..|cs| - 1];
      CursorBands(start, init, t);
      var w := WrapCount(start, init, t);
      assert t.band * (w + 1) == t.band * w + t.band;
    }
  }

  /** Columns are set exactly one band apart: child i sits in the column
      reached after the wraps of children 0..i. */
  lemma Bands(start: Cursor, cs: seq<Child>, t: Track, i: nat)
    requires i < |cs|
    ensures |Walk(start, cs, t).rects| == |cs|
    ensures Walk(start, cs, t).rects[i].left - cs[i].leftMargin
            == start.x + t.band * WrapCount(start, cs[..i + 1], t)
  {
    CursorAfter(start, cs, t, i);
    CursorBands(start, cs[..i + 1], t);
  }

  /** With a non-negative band, a later child never sits in a column further
      left. */
  lemma {:induction false} ColumnsAdvance(start: Cursor, cs: seq<Child>, t: Track, i: nat, j: nat)
    requires t.band >= 0
    requires i <= j < |cs|
    ensures |Walk(start, cs, t).rects| == |cs|
    ensures Walk(start, cs, t).rects[i].left - cs[i].leftMargin <= Walk(start, cs, t).rects[j].left - cs[j].leftMargin
    decreases j
  {
    WalkPrefix(start, cs, t, 0);
    if i < j {
      ColumnsAdvance(start, cs, t, i, j - 1);
      WrapRule(start, cs, t, j - 1);
    }
  }

  /** A child whose occupied height fits between the origin and the limit
      never extends, bottom margin included, past the limit. */
  lemma FitsColumn(start: Cursor, cs: seq<Child>, t: Track, i: nat)
    requires i < |cs|
    requires cs[i].OccupiedHeight() <= t.limit - t.origin
    ensures |Walk(start, cs, t).rects| == |cs|
    ensures Walk(start, cs, t).rects[i].bottom + cs[i].bottomMargin <= t.limit
  {
    WalkPlaces(start, cs, t);
  }

  /** The cursor never moves above the origin when it starts there or below
      it and no child has a negative occupied height. */
  lemma {:induction false} CursorBelowOrigin(start: Cursor, cs: seq<Child>, t: Track)
    requires start.y >= t.origin
    requires forall i :: 0 <= i < |cs| ==> cs[i].OccupiedHeight() >= 0
    ensures Walk(start, cs, t).cursor.y >= t.origin
    decreases |cs|
  {
    if cs != [] {
      var init := cs[..|cs| - 1];
      forall i | 0 <= i < |init| ensures init[i].OccupiedHeight() >= 0 {
        assert init[i] == cs[i];
      }
      CursorBelowOrigin(start, init, t);
    }
  }

  /** Under the same conditions no child's occupied area starts above the
      origin (the top padding). */
  lemma TopEdgesInsidePadding(start: Cursor, cs: seq<Child>, t: Track)
    requires start.y >= t.origin
    requires forall i :: 0 <= i < |cs| ==> cs[i].OccupiedHeight() >= 0
    ensures |Walk(start, cs, t).rects| == |cs|
    ensures forall i :: 0 <= i < |cs| ==> Walk(start, cs, t).rects[i].top - cs[i].topMargin >= t.origin
  {
    WalkPlaces(start, cs, t);
    forall i | 0 <= i < |cs| ensures Walk(start, cs, t).rects[i].top - cs[i].topMargin >= t.origin {
      forall k | 0 <= k < |cs[..i]| ensures cs[..i][k].OccupiedHeight() >= 0 {
        assert cs[..i][k] == cs[k];
      }
      CursorBelowOrigin(start, cs[..i], t);
    }
  }

  /** The wrap test is applied even at the top of a column: a first child
      taller than the space between origin and limit is pushed one band to
      the right, leaving the first column empty; it is still laid out, not
      dropped or resized. */
  lemma OversizedFirstChild(start: Cursor, cs: seq<Child>, t: Track)
    requires |cs| > 0 && start.y == t.origin
    requires cs[0].OccupiedHeight() > t.limit - t.origin
    ensures |Walk(start, cs, t).rects| == |cs|
    ensures Walk(start, cs, t).rects[0].top == t.origin + cs[0].topMargin
    ensures Walk(start, cs, t).rects[0].left - cs[0].leftMargin == start.x + t.band
    ensures Walk(start, cs, t).rects[0].bottom - Walk(start, cs, t).rects[0].top == cs[0].height
  {
    FirstChildWrapRule(start, cs, t);
  }

  /** The rectangle each child receives, as written: its height is the
      measured height, but its right edge leaves out the left margin, so it
      is width - leftMargin wide. */
  lemma FrameSize(start: Cursor, cs: seq<Child>, t: Track)
    ensures |Walk(start, cs, t).rects| == |cs|
    ensures forall i :: 0 <= i < |cs| ==>
      var r := Walk(start, cs, t).rects[i];
      r.right - r.left == cs[i].width - cs[i].leftMargin && r.bottom - r.top == cs[i].height
  {
    WalkPlaces(start, cs, t);
  }

  /** Two children of equal occupied height h starting at the top of a
      column that holds one of them but not two (for instance h = 60 in a
      column of 100 with no padding): the first sits at the start, the second
      wraps to the top of the next column, one band to the right. */
  lemma OneFitsThenWrap(start: Cursor, c: Child, t: Track)
    requires start.y == t.origin
    requires start.y + c.OccupiedHeight() <= t.limit
    requires start.y + c.OccupiedHeight() + c.OccupiedHeight() > t.limit
    ensures Walk(start, [c, c], t).rects
      == [Frame(start, c), Frame(Cursor(start.x + t.band, t.origin), c)]
  {
    assert [c][..0] == [];
    assert Walk(start, [c], t) == Pass([Frame(start, c)], Cursor(start.x, start.y + c.OccupiedHeight()));
    assert [c, c][..1] == [c];
  }
}
