/**
 * The redraw of the watch face (hands_layer_update_callback): three hands
 * are built from the current time, then every pixel of the 144 x 168 screen
 * is given the colour of the ring it falls in. The hour ring is the inner
 * disk, the minute and second rings the annuli around it, and pixels beyond
 * the second ring are background.
 *
 * The host's clock becomes a Time parameter, its pixel sink the map from
 * screen points to the colour drawn there, and its trigonometry tables the
 * Trig parameter.
 */
module FaceRender {
  import opened CArith
  import opened HandModel
  import opened HandColor

  const Width: int := 144
  const Height: int := 168
  const CenterX: int := 72
  const CenterY: int := 84

  /** The squared distance the sweep caps at, and the outer edges of the three rings. */
  const ClampSquared: int := 4900
  const HourRadius: int := 23
  const MinuteRadius: int := 46
  const SecondRadius: int := 70

  /** The fields of the host's time record that the face reads. */
  datatype Time = Time(hour: int, minute: int, second: int)

  datatype Ring = HourRing | MinuteRing | SecondRing | Background

  /** The outer radius of a ring, ordered from the centre outwards. */
  function OuterRadius(r: Ring): int
    requires r != Background
  {
    match r
    case HourRing => HourRadius
    case MinuteRing => MinuteRadius
    case SecondRing => SecondRadius
  }

  /** Position of a ring counted from the centre. */
  function RingIndex(r: Ring): int
  {
    match r
    case HourRing => 0
    case MinuteRing => 1
    case SecondRing => 2
    case Background => 3
  }

  /**
   * The ring of a pixel at squared distance d2 from the centre: the innermost
   * ring whose outer radius it lies strictly inside, or the background.
   */
  function SelectRing(d2: int): (r: Ring)
    ensures r != Background ==> d2 < OuterRadius(r) * OuterRadius(r)
    ensures forall inner: Ring :: inner != Background && RingIndex(inner) < RingIndex(r) ==>
              d2 >= OuterRadius(inner) * OuterRadius(inner)
  {
    if d2 < HourRadius * HourRadius then HourRing
    else if d2 < MinuteRadius * MinuteRadius then MinuteRing
    else if d2 < SecondRadius * SecondRadius then SecondRing
    else Background
  }

  /** Capping the squared distance at 70 * 70 never changes the ring. */
  lemma ClampKeepsRing(d2: int)
    ensures SelectRing(if d2 > ClampSquared then ClampSquared else d2) == SelectRing(d2)
  {
  }

  /** The boundaries are strict: a pixel exactly on a ring's edge belongs to the next ring out. */
  lemma RingEdgesAreStrict()
    ensures SelectRing(HourRadius * HourRadius) == MinuteRing
    ensures SelectRing(MinuteRadius * MinuteRadius) == SecondRing
    ensures SelectRing(SecondRadius * SecondRadius) == Background
  {
  }

  /** The three hands of one redraw, built from the time before the sweep starts. */
  datatype Frame = Frame(time: Time, hour: Hand, minute: Hand, second: Hand)

  /** The hands for time t: hours on a 12-position dial, minutes and seconds on 60. */
  function FrameAt(t: Time, trig: Trig): (f: Frame)
    requires trig.maxRatio != 0
    ensures f.time == t
    ensures ValidHand(f.hour) && ValidHand(f.minute) && ValidHand(f.second)
  {
    Frame(t, InitHand(t.hour, 12, trig), InitHand(t.minute, 60, trig), InitHand(t.second, 60, trig))
  }

  /** The hand a ring shows. */
  function RingHand(f: Frame, r: Ring): Hand
    requires r != Background
  {
    match r
    case HourRing => f.hour
    case MinuteRing => f.minute
    case SecondRing => f.second
  }

  /** The inversion of each ring: hours after noon, minutes in odd hours, seconds in odd minutes. */
  function RingReversed(t: Time, r: Ring): bool
  {
    match r
    case HourRing => t.hour >= 12
    case MinuteRing => CMod(t.hour, 2) != 0
    case SecondRing => CMod(t.minute, 2) != 0
    case Background => false
  }

  /** The colour the face gives the pixel (px, py) in frame f. */
  function PixelColor(f: Frame, px: int, py: int): Color
  {
    var dx, dy := px - CenterX, py - CenterY;
    var ring := SelectRing(dx * dx + dy * dy);
    if ring == Background then White
    else GetHandColor(RingHand(f, ring), dx, dy, RingReversed(f.time, ring))
  }

  /** A screen coordinate (`GPoint`): origin top left, x to the right, y down. */
  datatype Point = Point(x: int, y: int)

  predicate OnScreen(p: Point)
  {
    0 <= p.x < Width && 0 <= p.y < Height
  }

  /**
   * The sweep: visits the screen column by column and hands every pixel's
   * colour to the pixel sink, modelled as the map of what has been drawn.
   * Afterwards every pixel of the screen, and nothing else, has been drawn
   * with the colour PixelColor gives it.
   */
  method Sweep(f: Frame) returns (drawn: map<Point, Color>)
    ensures forall p :: p in drawn <==> OnScreen(p)
    ensures forall p :: p in drawn ==> drawn[p] == PixelColor(f, p.x, p.y)
  {
    var cx, cy := CenterX, CenterY;
    drawn := map[];

    for px := 0 to Width
      invariant forall p :: p in drawn <==> 0 <= p.x < px && 0 <= p.y < Height
      invariant forall p :: p in drawn ==> drawn[p] == PixelColor(f, p.x, p.y)
    {
      for py := 0 to Height
        invariant forall p :: p in drawn <==>
                    (0 <= p.x < px && 0 <= p.y < Height) || (p.x == px && 0 <= p.y < py)
        invariant forall p :: p in drawn ==> drawn[p] == PixelColor(f, p.x, p.y)
      {
        var dx := px - cx;
        var dy := py - cy;
        var distanceSquared := dx * dx + dy * dy;
        ClampKeepsRing(distanceSquared);
        if distanceSquared > ClampSquared {
          distanceSquared := ClampSquared;
        }

        var color := White;
        if distanceSquared < HourRadius * HourRadius {
          color := GetHandColor(f.hour, dx, dy, f.time.hour >= 12);
        } else if distanceSquared < MinuteRadius * MinuteRadius {
          color := GetHandColor(f.minute, dx, dy, CMod(f.time.hour, 2) != 0);
        } else if distanceSquared < SecondRadius * SecondRadius {
          color := GetHandColor(f.second, dx, dy, CMod(f.time.minute, 2) != 0);
        }
        drawn := drawn[Point(px, py) := color];
      }
    }
  }

  /** The redraw: builds the three hands from the time, then sweeps the screen. */
  method Render(t: Time, trig: Trig) returns (drawn: map<Point, Color>)
    requires trig.maxRatio != 0
    ensures forall p :: p in drawn <==> OnScreen(p)
    ensures forall p :: p in drawn ==> drawn[p] == PixelColor(FrameAt(t, trig), p.x, p.y)
  {
    var hour := InitHand(t.hour, 12, trig);
    var minute := InitHand(t.minute, 60, trig);
    var second := InitHand(t.second, 60, trig);
    drawn := Sweep(Frame(t, hour, minute, second));
  }

  /** A table that is exact at 12 o'clock and at 6 o'clock. */
  predicate ExactAtVerticals(trig: Trig)
  {
    && trig.maxRatio != 0 && trig.maxAngle >= 0
    && trig.sin(0) == 0 && trig.cos(0) == trig.maxRatio
    && trig.sin(trig.maxAngle / 2) == 0 && trig.cos(trig.maxAngle / 2) == -trig.maxRatio
  }

  /** At 00:00:00 all three hands point up, so the whole face is White. */
  lemma {:induction false} MidnightIsBlank(trig: Trig, px: int, py: int)
    requires trig.maxRatio != 0 && trig.sin(0) == 0 && trig.cos(0) == trig.maxRatio
    ensures PixelColor(FrameAt(Time(0, 0, 0), trig), px, py) == White
  {
    TwelveOClock(12, trig);
    TwelveOClock(60, trig);
  }

  /**
   * At 00:30:00 the minute hand points straight down: the minute ring is
   * Black right of the centre and White elsewhere, and the hour disk is
   * still White.
   */
  lemma {:induction false} HalfPastMidnight(trig: Trig, px: int, py: int)
    requires ExactAtVerticals(trig)
    ensures var dx, dy := px - CenterX, py - CenterY;
            SelectRing(dx * dx + dy * dy) == MinuteRing ==>
              (PixelColor(FrameAt(Time(0, 30, 0), trig), px, py) == Black <==> dx > 0)
    ensures var dx, dy := px - CenterX, py - CenterY;
            SelectRing(dx * dx + dy * dy) == HourRing ==>
              PixelColor(FrameAt(Time(0, 30, 0), trig), px, py) == White
  {
    TwelveOClock(12, trig);
    SixOClock(60, trig);
  }

  /** Every hand of a frame stays within 1000 per axis when the table is bounded. */
  lemma {:induction false} FrameHandsBounded(t: Time, trig: Trig, r: Ring)
    requires BoundedLookup(trig) && r != Background
    ensures Abs(RingHand(FrameAt(t, trig), r).x) <= 1000
    ensures Abs(RingHand(FrameAt(t, trig), r).y) <= 1000
  {
    match r
    case HourRing => HandBounds(t.hour, 12, trig);
    case MinuteRing => HandBounds(t.minute, 60, trig);
    case SecondRing => HandBounds(t.second, 60, trig);
  }

  /**
   * On screen, every pixel of a ring whose hand is not vertical shows that
   * hand's wedge (inverted when the ring is reversed), except for pixels
   * whose cross product with the hand is at most |dx|: within the slope's
   * rounding margin of the hand's own line.
   */
  lemma {:induction false} RingPixelIsWedge(t: Time, trig: Trig, px: int, py: int)
    requires BoundedLookup(trig)
    requires var dx, dy := px - CenterX, py - CenterY;
             var ring := SelectRing(dx * dx + dy * dy);
             ring != Background && !RingHand(FrameAt(t, trig), ring).slopeIsUndefined &&
             Abs(Cross(RingHand(FrameAt(t, trig), ring), dx, dy)) > Abs(dx)
    ensures var dx, dy := px - CenterX, py - CenterY;
            var ring := SelectRing(dx * dx + dy * dy);
            PixelColor(FrameAt(t, trig), px, py) == Black <==>
              InWedge(RingHand(FrameAt(t, trig), ring), dx, dy) != RingReversed(t, ring)
  {
    var dx, dy := px - CenterX, py - CenterY;
    var ring := SelectRing(dx * dx + dy * dy);
    var f := FrameAt(t, trig);
    FrameHandsBounded(t, trig, ring);
    HandShowsWedge(RingHand(f, ring), dx, dy, RingReversed(t, ring));
  }
}
