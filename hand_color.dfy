/**
 * get_hand_color: which colour a point (dx, dy) relative to the dial's
 * centre gets for one hand. The hand sweeps a wedge clockwise from 12
 * o'clock to its own position; the wedge is Black, the rest White, and the
 * `reversed` flag swaps the two.
 *
 * Screen coordinates: x grows to the right, y grows downward, so the
 * quarter of the dial from 12 to 3 o'clock has dx >= 0 and dy <= 0.
 */
module HandColor {
  import opened CArith
  import opened HandModel

  datatype Color = Black | White

  /** Swaps Black and White. */
  function Invert(c: Color): (r: Color)
    ensures r != c
  {
    if c == Black then White else Black
  }

  lemma InvertInvolution(c: Color)
    ensures Invert(Invert(c)) == c
  {
  }

  /** The four point quarters of the screen around the centre. */
  predicate PointInQ1(dx: int, dy: int) { dx >= 0 && dy <= 0 }
  predicate PointInQ2(dx: int, dy: int) { dx >= 0 && dy > 0 }
  predicate PointInQ3(dx: int, dy: int) { dx < 0 && dy > 0 }
  predicate PointInQ4(dx: int, dy: int) { dx < 0 && dy <= 0 }

  /** The quarter (1 to 4, clockwise from 12 o'clock) a point lies in; the four predicates partition the plane. */
  function PointQuadrant(dx: int, dy: int): (q: int)
    ensures 1 <= q <= 4
    ensures PointInQ1(dx, dy) <==> q == 1
    ensures PointInQ2(dx, dy) <==> q == 2
    ensures PointInQ3(dx, dy) <==> q == 3
    ensures PointInQ4(dx, dy) <==> q == 4
  {
    if dx >= 0 then (if dy <= 0 then 1 else 2)
    else (if dy > 0 then 3 else 4)
  }

  /** The quarter of the dial a non-vertical hand's direction points into, as the branches of get_hand_color test it. */
  function HandQuadrant(h: Hand): int
  {
    if h.x > 0 && h.y <= 0 then 1
    else if h.x > 0 then 2
    else if h.y > 0 then 3
    else 4
  }

  /** The division-free side test: dy * 1000 > dx * slope. */
  predicate BelowLine(h: Hand, dx: int, dy: int)
  {
    dy * 1000 > dx * h.slopeTimes1000
  }

  /** The colour of (dx, dy) for hand h, with Black and White swapped when `reversed`. */
  function GetHandColor(h: Hand, dx: int, dy: int, reversed: bool): Color
  {
    var color :=
      if h.slopeIsUndefined then
        if h.y < 0 then White           // 12 o'clock: nothing swept yet
        else if dx > 0 then Black       // 6 o'clock: the right half is swept
        else White
      else
        var belowLine := BelowLine(h, dx, dy);
        var q1, q2 := PointInQ1(dx, dy), PointInQ2(dx, dy);
        var q3, q4 := PointInQ3(dx, dy), PointInQ4(dx, dy);
        if h.x > 0 && h.y <= 0 then
          if q1 && !belowLine then Black else White
        else if h.x > 0 then
          if q1 || (q2 && !belowLine) then Black else White
        else if h.y > 0 then
          if q1 || q2 || (q3 && belowLine) then Black else White
        else
          if q1 || q2 || q3 || (q4 && belowLine) then Black else White;
    if reversed then Invert(color) else color
  }

  /** The `reversed` flag is exactly an inversion of the colour. */
  lemma ReversedInverts(h: Hand, dx: int, dy: int)
    ensures GetHandColor(h, dx, dy, true) == Invert(GetHandColor(h, dx, dy, false))
  {
  }

  /** A hand pointing straight up paints nothing: all White, or all Black when reversed. */
  lemma UpHandPaintsNothing(h: Hand, dx: int, dy: int)
    requires h.slopeIsUndefined && h.y < 0
    ensures GetHandColor(h, dx, dy, false) == White
    ensures GetHandColor(h, dx, dy, true) == Black
  {
  }

  /** A vertical hand not pointing up paints exactly the right half of the plane. */
  lemma DownHandPaintsRightHalf(h: Hand, dx: int, dy: int)
    requires h.slopeIsUndefined && h.y >= 0
    ensures GetHandColor(h, dx, dy, false) == Black <==> dx > 0
  {
  }

  /** A first-quarter hand paints only points of the first quarter. */
  lemma FirstQuarterSweep(h: Hand, dx: int, dy: int)
    requires !h.slopeIsUndefined && HandQuadrant(h) == 1
    ensures GetHandColor(h, dx, dy, false) == Black ==> PointInQ1(dx, dy)
  {
  }

  /** A second-quarter hand paints all of the first quarter and nothing of the third and fourth. */
  lemma SecondQuarterSweep(h: Hand, dx: int, dy: int)
    requires !h.slopeIsUndefined && HandQuadrant(h) == 2
    ensures PointInQ1(dx, dy) ==> GetHandColor(h, dx, dy, false) == Black
    ensures PointInQ3(dx, dy) || PointInQ4(dx, dy) ==> GetHandColor(h, dx, dy, false) == White
  {
  }

  /** A third-quarter hand paints all of the first two quarters and nothing of the fourth. */
  lemma ThirdQuarterSweep(h: Hand, dx: int, dy: int)
    requires !h.slopeIsUndefined && HandQuadrant(h) == 3
    ensures PointInQ1(dx, dy) || PointInQ2(dx, dy) ==> GetHandColor(h, dx, dy, false) == Black
    ensures PointInQ4(dx, dy) ==> GetHandColor(h, dx, dy, false) == White
  {
  }

  /** A fourth-quarter hand paints all of the first three quarters. */
  lemma FourthQuarterSweep(h: Hand, dx: int, dy: int)
    requires !h.slopeIsUndefined && HandQuadrant(h) == 4
    ensures !PointInQ4(dx, dy) ==> GetHandColor(h, dx, dy, false) == Black
  {
  }

  /**
   * The four quarter rules are one rule: a point is Black when its quarter
   * comes strictly before the hand's (clockwise from 12), or when it shares
   * the hand's quarter and lies on the swept side of the line, which is
   * above the line for the two right-hand quarters and below it for the
   * two left-hand ones.
   */
  predicate SweptByLine(h: Hand, dx: int, dy: int)
  {
    var pq, hq := PointQuadrant(dx, dy), HandQuadrant(h);
    pq < hq || (pq == hq && BelowLine(h, dx, dy) == (hq >= 3))
  }

  lemma UnifiedSweepRule(h: Hand, dx: int, dy: int)
    requires !h.slopeIsUndefined
    ensures GetHandColor(h, dx, dy, false) == Black <==> SweptByLine(h, dx, dy)
  {
  }

  /**
   * Cross(h, dx, dy) is positive exactly when the point lies counter-clockwise
   * of the hand (on screen), that is, before the hand when turning clockwise
   * from 12 within half a turn.
   */
  function Cross(h: Hand, dx: int, dy: int): int
  {
    dx * h.y - dy * h.x
  }

  /** The geometric wedge: an earlier quarter, or the hand's quarter and strictly before the hand. */
  predicate InWedge(h: Hand, dx: int, dy: int)
  {
    var pq, hq := PointQuadrant(dx, dy), HandQuadrant(h);
    pq < hq || (pq == hq && Cross(h, dx, dy) > 0)
  }

  /** Multiplying the slope test by x splits it into the exact cross product and the slope's error. */
  lemma SideIdentity(dx: int, dy: int, x: int, y: int, s: int)
    ensures (dy * 1000 - dx * s) * x == -1000 * (dx * y - dy * x) + dx * (y * 1000 - x * s)
  {
    assert (dy * 1000 - dx * s) * x == 1000 * (dy * x) - dx * (s * x);
    assert dx * (y * 1000 - x * s) == 1000 * (dx * y) - dx * (x * s);
  }

  /** A term dominating an error fixes the sign of their sum. */
  lemma DominantSign(p: int, c: int, err: int)
    requires p == -1000 * c + err && Abs(err) < 1000 * Abs(c)
    ensures p > 0 <==> c < 0
    ensures p < 0 <==> c > 0
  {
  }

  /**
   * The slope test agrees with the exact side of the hand's line for every
   * point far enough from it: once 1000 * |Cross| exceeds |dx| * |x|, the
   * truncation in the slope cannot move the point across the line.
   */
  lemma {:induction false} BelowLineMatchesCross(h: Hand, dx: int, dy: int)
    requires ValidHand(h) && !h.slopeIsUndefined
    requires 1000 * Abs(Cross(h, dx, dy)) > Abs(dx) * Abs(h.x)
    ensures h.x > 0 ==> (BelowLine(h, dx, dy) <==> Cross(h, dx, dy) < 0)
    ensures h.x < 0 ==> (BelowLine(h, dx, dy) <==> Cross(h, dx, dy) > 0)
  {
    var x, y, s := h.x, h.y, h.slopeTimes1000;
    var c := Cross(h, dx, dy);
    var e := y * 1000 - x * s;          // the truncation error of the slope
    SlopeApproximates(h);
    var d := dy * 1000 - dx * s;        // BelowLine is d > 0
    SideIdentity(dx, dy, x, y, s);
    assert Abs(dx * e) < 1000 * Abs(c) by {
      AbsMul(dx, e);
      MulMonotone(Abs(dx), Abs(e), Abs(x));
    }
    DominantSign(d * x, c, dx * e);
    MulSign(d, x);
    MulSign(-d, x);
    assert (-d) * x == -(d * x);
  }

  /**
   * For a non-vertical hand, get_hand_color paints exactly the wedge swept
   * clockwise from 12 o'clock to the hand, for every point not within the
   * slope's rounding margin of the hand's own line.
   */
  lemma {:induction false} ColorIsWedge(h: Hand, dx: int, dy: int)
    requires ValidHand(h) && !h.slopeIsUndefined
    requires 1000 * Abs(Cross(h, dx, dy)) > Abs(dx) * Abs(h.x)
    ensures GetHandColor(h, dx, dy, false) == Black <==> InWedge(h, dx, dy)
  {
    BelowLineMatchesCross(h, dx, dy);
    UnifiedSweepRule(h, dx, dy);
  }

  /**
   * For a hand no longer than 1000 per axis, the rounding margin is at most
   * |dx|: every point whose cross product with the hand exceeds |dx| gets
   * the wedge colour, inverted when `reversed`.
   */
  lemma {:induction false} HandShowsWedge(h: Hand, dx: int, dy: int, reversed: bool)
    requires ValidHand(h) && !h.slopeIsUndefined && Abs(h.x) <= 1000
    requires Abs(Cross(h, dx, dy)) > Abs(dx)
    ensures GetHandColor(h, dx, dy, reversed) == Black <==> InWedge(h, dx, dy) != reversed
  {
    assert 1000 * Abs(Cross(h, dx, dy)) > Abs(dx) * Abs(h.x) by {
      MulMonotone(Abs(dx), Abs(h.x), 1000);
    }
    ColorIsWedge(h, dx, dy);
    ReversedInverts(h, dx, dy);
  }
}
