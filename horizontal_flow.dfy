/**
 * The horizontal walker of FlowLayout.layoutHorizontalFlow as a function of
 * the children, the starting cursor and the track (mPaddingLeft,
 * mWidth - mPaddingRight, maxChildHeight), and what it guarantees: one
 * rectangle per child in order, the wrap rule, bottom-aligned rows stacked one
 * band apart.
 */
module HorizontalFlow {
  import opened Views

  /** The wrap test, applied to every child whatever the cursor position. */
  predicate Wraps(at: Cursor, c: Child, t: Track): (b: bool)
    ensures at.x == t.origin ==> (b <==> c.OccupiedWidth() > t.limit - t.origin)
  {
    at.x + c.OccupiedWidth() > t.limit
  }

  /** Where the cursor stands when child `c` is laid out: the start of the
      next row when the wrap test fires, otherwise unchanged. */
  function Place(at: Cursor, c: Child, t: Track): (r: Cursor)
    ensures r.x + c.OccupiedWidth() <= t.limit || r.x == t.origin
    ensures r != at ==> r.x == t.origin && r.y == at.y + t.band
  {
    if Wraps(at, c, t) then Cursor(t.origin, at.y + t.band) else at
  }

  /** The rectangle given to a child laid out at cursor `p` in a row `band`
      tall: bottom-aligned in the row, right edge at the end of its occupied
      width. */
  function Frame(p: Cursor, c: Child, band: int): (r: Rect)
    ensures r.bottom == p.y + band
    ensures r.right - r.left == c.width + c.rightMargin && r.bottom - r.top == c.height + c.bottomMargin
  {
    Rect(p.x + c.leftMargin, p.y + band - c.height - c.bottomMargin,
         p.x + c.OccupiedWidth(), p.y + band)
  }

  /** The walk over `cs` from `start`: each child is placed after the wrap
      test and the cursor then moves right by its occupied width. */
  function Walk(start: Cursor, cs: seq<Child>, t: Track): (r: Pass)
    ensures |r.rects| == |cs|
    decreases |cs|
  {
    if cs == [] then Pass([], start)
    else
      var prev := Walk(start, cs[..|cs| - 1], t);
      var c := cs[|cs| - 1];
      var p := Place(prev.cursor, c, t);
      Pass(prev.rects + [Frame(p, c, t.band)], Cursor(p.x + c.OccupiedWidth(), p.y))
  }

  /** How many children of `cs` started a new row. */
  function WrapCount(start: Cursor, cs: seq<Child>, t: Track): nat
    decreases |cs|
  {
    if cs == [] then 0
    else
      var prev := Walk(start, cs[..|cs| - 1], t);
      WrapCount(start, cs[..|cs| - 1], t) + if Wraps(prev.cursor, cs[|cs| - 1], t) then 1 else 0
  }

  /** Walking a prefix of the children lays them out exactly as the whole
      walk does: one rectangle per child, never revised later. */
  lemma {:induction false} WalkPrefix(start: Cursor, cs: seq<Child>, t: Track, j: nat)
    requires j <= |cs|
    ensures |Walk(start, cs, t).rects| == |cs|
    ensures Walk(start, cs[..j], t).rects == Walk(start, cs, t).rects[..j]
    decreases |cs|
  {
    if cs == [] {
    } else if j == |cs| {
      assert cs[..j] == cs;
      WalkPrefix(start, cs[..|cs| - 1], t, 0);
    } else {
      var init := cs[..|cs| - 1];
      assert init[..j] == cs[..j];
      WalkPrefix(start, init, t, j);
    }
  }

  /** Every child is laid out exactly once, in index order: rectangle i is
      the frame of child i at the cursor left by children 0..i-1, after the
      wrap test. */
  lemma WalkPlaces(start: Cursor, cs: seq<Child>, t: Track)
    ensures |Walk(start, cs, t).rects| == |cs|
    ensures forall i :: 0 <= i < |cs| ==>
      Walk(start, cs, t).rects[i] == Frame(Place(Walk(start, cs[..i], t).cursor, cs[i], t), cs[i], t.band)
  {
    forall i | 0 <= i < |cs|
      ensures Walk(start, cs, t).rects[i] == Frame(Place(Walk(start, cs[..i], t).cursor, cs[i], t), cs[i], t.band)
    {
      WalkPlace(start, cs, t, i);
    }
  }

  /** One index of WalkPlaces. */
  lemma WalkPlace(start: Cursor, cs: seq<Child>, t: Track, i: nat)
    requires i < |cs|
    ensures |Walk(start, cs, t).rects| == |cs|
    ensures Walk(start, cs, t).rects[i] == Frame(Place(Walk(start, cs[..i], t).cursor, cs[i], t), cs[i], t.band)
  {
    WalkPrefix(start, cs, t, i + 1);
    assert cs[..i + 1][..i] == cs[..i];
  }

  /** After child i the cursor stands at the right edge of its rectangle, on
      the row whose bottom is that rectangle's bottom. */
  lemma CursorAfter(start: Cursor, cs: seq<Child>, t: Track, i: nat)
    requires i < |cs|
    ensures |Walk(start, cs, t).rects| == |cs|
    ensures Walk(start, cs[..i + 1], t).cursor
            == Cursor(Walk(start, cs, t).rects[i].right, Walk(start, cs, t).rects[i].bottom - t.band)
  {
    WalkPlaces(start, cs, t);
    assert cs[..i + 1][..i] == cs[..i];
  }

  /** The first child starts a new row exactly when the starting cursor plus
      its occupied width passes the limit. */
  lemma FirstChildWrapRule(start: Cursor, cs: seq<Child>, t: Track)
    requires |cs| > 0
    ensures |Walk(start, cs, t).rects| == |cs|
    ensures start.x + cs[0].OccupiedWidth() > t.limit ==>
      Walk(start, cs, t).rects[0] == Frame(Cursor(t.origin, start.y + t.band), cs[0], t.band)
    ensures start.x + cs[0].OccupiedWidth() <= t.limit ==>
      Walk(start, cs, t).rects[0] == Frame(start, cs[0], t.band)
  {
    WalkPlaces(start, cs, t);
    assert cs[..0] == [];
  }

  /** The wrap rule read off the output: child i+1 goes to the start of the
      next row (one band lower) exactly when the right edge of child i plus
      its own occupied width passes the limit; otherwise it abuts child i in
      the same row. */
  lemma WrapRule(start: Cursor, cs: seq<Child>, t: Track, i: nat)
    requires i + 1 < |cs|
    ensures |Walk(start, cs, t).rects| == |cs|
    ensures var r := Walk(start, cs, t).rects;
      r[i].right + cs[i + 1].OccupiedWidth() > t.limit ==>
        r[i + 1].left == t.origin + cs[i + 1].leftMargin && r[i + 1].bottom == r[i].bottom + t.band
    ensures var r := Walk(start, cs, t).rects;
      r[i].right + cs[i + 1].OccupiedWidth() <= t.limit ==>
        r[i + 1].left == r[i].right + cs[i + 1].leftMargin && r[i + 1].bottom == r[i].bottom
  {
    WalkPlaces(start, cs, t);
    CursorAfter(start, cs, t, i);
  }

  /** The cursor ends exactly WrapCount bands below where it started. */
  lemma {:induction false} CursorBands(start: Cursor, cs: seq<Child>, t: Track)
    ensures Walk(start, cs, t).cursor.y == start.y + t.band * WrapCount(start, cs, t)
    decreases |cs|
  {
    if cs != [] {
      var init := cs[..|cs| - 1];
      CursorBands(start, init, t);
      var w := WrapCount(start, init, t);
      assert t.band * (w + 1) == t.band * w + t.band;
    }
  }

  /** Rows are stacked exactly one band apart: child i sits in the band
      below the one reached after the wraps of children 0..i, so its bottom
      edge is the bottom of that band. */
  lemma Bands(start: Cursor, cs: seq<Child>, t: Track, i: nat)
    requires i < |cs|
    ensures |Walk(start, cs, t).rects| == |cs|
    ensures Walk(start, cs, t).rects[i].bottom == start.y + t.band * WrapCount(start, cs[..i + 1], t) + t.band
  {
    CursorAfter(start, cs, t, i);
    CursorBands(start, cs[..i + 1], t);
  }

  /** With a non-negative band, a later child never sits in a higher row. */
  lemma {:induction false} RowsDescend(start: Cursor, cs: seq<Child>, t: Track, i: nat, j: nat)
    requires t.band >= 0
    requires i <= j < |cs|
    ensures |Walk(start, cs, t).rects| == |cs|
    ensures Walk(start, cs, t).rects[i].bottom <= Walk(start, cs, t).rects[j].bottom
    decreases j
  {
    WalkPrefix(start, cs, t, 0);
    if i < j {
      RowsDescend(start, cs, t, i, j - 1);
      WrapRule(start, cs, t, j - 1);
    }
  }

  /** A child whose occupied width fits between the origin and the limit
      never extends past the limit, whether or not it wrapped. */
  lemma FitsLine(start: Cursor, cs: seq<Child>, t: Track, i: nat)
    requires i < |cs|
    requires cs[i].OccupiedWidth() <= t.limit - t.origin
    ensures |Walk(start, cs, t).rects| == |cs|
    ensures Walk(start, cs, t).rects[i].right <= t.limit
  {
    WalkPlaces(start, cs, t);
  }

  /** The cursor never moves left of the origin when it starts there or to
      the right of it and no child has a negative occupied width. */
  lemma {:induction false} CursorRightOfOrigin(start: Cursor, cs: seq<Child>, t: Track)
    requires start.x >= t.origin
    requires forall i :: 0 <= i < |cs| ==> cs[i].OccupiedWidth() >= 0
    ensures Walk(start, cs, t).cursor.x >= t.origin
    decreases |cs|
  {
    if cs != [] {
      var init := cs[..|cs| - 1];
      forall i | 0 <= i < |init| ensures init[i].OccupiedWidth() >= 0 {
        assert init[i] == cs[i];
      }
      CursorRightOfOrigin(start, init, t);
    }
  }

  /** Under the same conditions no child's occupied area starts left of the
      origin (the left padding). */
  lemma LeftEdgesInsidePadding(start: Cursor, cs: seq<Child>, t: Track)
    requires start.x >= t.origin
    requires forall i :: 0 <= i < |cs| ==> cs[i].OccupiedWidth() >= 0
    ensures |Walk(start, cs, t).rects| == |cs|
    ensures forall i :: 0 <= i < |cs| ==> Walk(start, cs, t).rects[i].left - cs[i].leftMargin >= t.origin
  {
    WalkPlaces(start, cs, t);
    forall i | 0 <= i < |cs| ensures Walk(start, cs, t).rects[i].left - cs[i].leftMargin >= t.origin {
      forall k | 0 <= k < |cs[..i]| ensures cs[..i][k].OccupiedWidth() >= 0 {
        assert cs[..i][k] == cs[k];
      }
      CursorRightOfOrigin(start, cs[..i], t);
    }
  }

  /** The wrap test is applied even at the start of a row: a first child
      wider than the space between origin and limit is pushed one band down,
      leaving the first row empty; it is still laid out, not dropped or
      resized. */
  lemma OversizedFirstChild(start: Cursor, cs: seq<Child>, t: Track)
    requires |cs| > 0 && start.x == t.origin
    requires cs[0].OccupiedWidth() > t.limit - t.origin
    ensures |Walk(start, cs, t).rects| == |cs|
    ensures Walk(start, cs, t).rects[0].left == t.origin + cs[0].leftMargin
    ensures Walk(start, cs, t).rects[0].bottom == start.y + 2 * t.band
    ensures Walk(start, cs, t).rects[0].right - Walk(start, cs, t).rects[0].left == cs[0].width + cs[0].rightMargin
  {
    FirstChildWrapRule(start, cs, t);
  }

  /** The rectangle each child receives, as written: its left edge is inside
      the left margin but its right edge is at the end of the right margin,
      and it reaches down to the row's bottom through the bottom margin, so
      it is width + rightMargin wide and height + bottomMargin tall. */
  lemma FrameSize(start: Cursor, cs: seq<Child>, t: Track)
    ensures |Walk(start, cs, t).rects| == |cs|
    ensures forall i :: 0 <= i < |cs| ==>
      var r := Walk(start, cs, t).rects[i];
      r.right - r.left == cs[i].width + cs[i].rightMargin && r.bottom - r.top == cs[i].height + cs[i].bottomMargin
  {
    WalkPlaces(start, cs, t);
  }

  /** Three children of equal occupied width w starting at the origin of a
      row that holds two of them but not three (for instance w = 50 in a row
      of 120 with no padding): the first two share the starting row at x and
      x + w, the third wraps to the origin of the next row. */
  lemma TwoFitThenWrap(start: Cursor, c: Child, t: Track)
    requires start.x == t.origin
    requires start.x + c.OccupiedWidth() + c.OccupiedWidth() <= t.limit
    requires start.x + c.OccupiedWidth() + c.OccupiedWidth() + c.OccupiedWidth() > t.limit
    ensures Walk(start, [c, c, c], t).rects
      == [Frame(start, c, t.band),
          Frame(Cursor(start.x + c.OccupiedWidth(), start.y), c, t.band),
          Frame(Cursor(start.x, start.y + t.band), c, t.band)]
  {
    var w := c.OccupiedWidth();
    assert [c][..0] == [];
    assert Walk(start, [c], t) == Pass([Frame(start, c, t.band)], Cursor(start.x + w, start.y));
    assert [c, c][..1] == [c];
    assert Walk(start, [c, c], t).cursor == Cursor(start.x + w + w, start.y);
    assert [c, c, c][..2] == [c, c];
  }
}
