/**
 * The max-extent scan of FlowLayout.findMaxChildWidthAndHeight: a running
 * maximum of the children's occupied sizes that starts from the value the
 * field already holds, followed by a clamp to the container size.
 */
module MaxScan {
  import opened Views

  /** The axis a scan measures. */
  datatype Dimension = Width | Height

  /** The size a child occupies along `d`, margins included. */
  function Extent(c: Child, d: Dimension): int
  {
    match d
    case Width => c.OccupiedWidth()
    case Height => c.OccupiedHeight()
  }

  /** The accumulator after folding Math.max over `cs` in order, starting
      from `start` (the field's value before the scan; it is not reset). */
  function RunningMax(start: int, cs: seq<Child>, d: Dimension): (r: int)
    ensures r >= start
    ensures cs != [] ==> r >= Extent(cs[|cs| - 1], d)
    decreases |cs|
  {
    if cs == [] then start
    else Max(RunningMax(start, cs[..|cs| - 1], d), Extent(cs[|cs| - 1], d))
  }

  /** The field's value after the whole scan: the running maximum clamped
      with Math.min to the container size `limit`. */
  function ScannedMax(start: int, cs: seq<Child>, d: Dimension, limit: int): (r: int)
    ensures r <= limit
    ensures r >= Min(start, limit)
  {
    Min(RunningMax(start, cs, d), limit)
  }

  /** The running maximum is the largest of the starting value and every
      child's extent: it bounds all of them and equals one of them. */
  lemma {:induction false} RunningMaxIsMaximum(start: int, cs: seq<Child>, d: Dimension)
    ensures RunningMax(start, cs, d) >= start
    ensures forall i :: 0 <= i < |cs| ==> RunningMax(start, cs, d) >= Extent(cs[i], d)
    ensures RunningMax(start, cs, d) == start
            || exists i :: 0 <= i < |cs| && RunningMax(start, cs, d) == Extent(cs[i], d)
    decreases |cs|
  {
    if cs != [] {
      var init := cs[..|cs| - 1];
      RunningMaxIsMaximum(start, init, d);
      forall i | 0 <= i < |init| ensures cs[i] == init[i] { }
    }
  }

  /** A starting value no child exceeds survives the scan unchanged. */
  lemma {:induction false} RunningMaxKeepsDominantStart(start: int, cs: seq<Child>, d: Dimension)
    requires forall i :: 0 <= i < |cs| ==> Extent(cs[i], d) <= start
    ensures RunningMax(start, cs, d) == start
    decreases |cs|
  {
    if cs != [] {
      var init := cs[..|cs| - 1];
      forall i | 0 <= i < |init| ensures Extent(init[i], d) <= start {
        assert init[i] == cs[i];
      }
      RunningMaxKeepsDominantStart(start, init, d);
    }
  }

  /** After the scan the maximum never exceeds the container size, covers
      every child up to that size, never drops below the value the field held
      before (up to the same clamp), and is one of those candidates. */
  lemma ScannedMaxBounds(start: int, cs: seq<Child>, d: Dimension, limit: int)
    ensures ScannedMax(start, cs, d, limit) <= limit
    ensures forall i :: 0 <= i < |cs| ==> ScannedMax(start, cs, d, limit) >= Min(Extent(cs[i], d), limit)
    ensures ScannedMax(start, cs, d, limit) >= Min(start, limit)
    ensures ScannedMax(start, cs, d, limit) == Min(start, limit)
            || exists i :: 0 <= i < |cs| && ScannedMax(start, cs, d, limit) == Min(Extent(cs[i], d), limit)
  {
    RunningMaxIsMaximum(start, cs, d);
  }

  /** The maxima are carried over between passes: when every child now
      occupies no more than the value the field already holds, the scan
      reports that earlier value (clamped), not the children's own maximum. */
  lemma ScanKeepsEarlierMaximum(start: int, cs: seq<Child>, d: Dimension, limit: int)
    requires forall i :: 0 <= i < |cs| ==> Extent(cs[i], d) <= start
    ensures ScannedMax(start, cs, d, limit) == Min(start, limit)
  {
    RunningMaxKeepsDominantStart(start, cs, d);
  }

  /** Scanning the same children against the same container size a second
      time leaves the maximum where the first scan put it. */
  lemma ScanIdempotent(start: int, cs: seq<Child>, d: Dimension, limit: int)
    ensures ScannedMax(ScannedMax(start, cs, d, limit), cs, d, limit) == ScannedMax(start, cs, d, limit)
  {
    var m := RunningMax(start, cs, d);
    RunningMaxIsMaximum(start, cs, d);
    if m <= limit {
      RunningMaxKeepsDominantStart(m, cs, d);
    } else {
      RunningMaxIsMaximum(limit, cs, d);
    }
  }
}
