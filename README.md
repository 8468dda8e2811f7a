# Not Worst watch face: the pixel classifier

A model of the analog watch face "Not Worst" for the Pebble watch. Once a
second the face repaints its 144 x 168 screen pixel by pixel. Each clock hand
(hour, minute, second) owns one concentric ring around the centre (72, 84).
Inside its ring, a hand paints Black the wedge it has swept clockwise from 12
o'clock and White the rest, up to the rounding margin of the slope. Each ring can invert its colours: the hour ring
after noon, the minute ring in odd hours, the second ring in odd minutes.
Only integer arithmetic is used, in fixed point where 1000 stands for 1.0.

The project has four modules:

- `CArith` (`c_arith.dfy`): C's integer `/` and `%`, which truncate toward
  zero. Dafny's operators are Euclidean, so every C division goes through
  `CDiv` or `CMod`.
- `HandModel` (`hand_model.dfy`): the `Hand` record and `init_hand`, as the
  pure function `InitHand`. The operating system's `sin_lookup`/`cos_lookup`
  tables and the constants `TRIG_MAX_ANGLE`/`TRIG_MAX_RATIO` are the
  parameter `Trig`: two function fields and two integers.
- `HandColor` (`hand_color.dfy`): `get_hand_color`, as the pure function
  `GetHandColor`. It comes with the quarter-by-quarter sweep lemmas, one
  unified rule, and a geometric statement: the colour is the swept wedge,
  measured with the exact cross product, for every point outside the
  rounding margin of the slope.
- `FaceRender` (`face_render.dfy`): `hands_layer_update_callback`, as the
  method `Render`. It builds the three hands into a `Frame`, then calls the
  method `Sweep`. The nested loops of `Sweep` fill the pixel sink, which is
  modelled as a map from screen points to the colour drawn there. The
  postcondition of `Sweep` says which pixels are drawn (exactly the screen)
  and gives each one's colour through the function `PixelColor`.

`init_hand` applies C's `%` to any value, negative ones included
(not_worst/src/not_worst.c:36), and `InitHand` does the same.

## Model

| member | source | states |
|---|---|---|
| CArith.CDiv | not_worst/src/not_worst.c:38-43 | C's `/`: the remainder is smaller than the divisor in magnitude and has the sign of the dividend (truncation toward zero) |
| CArith.CMod | not_worst/src/not_worst.c:36 | C's `%`: the result is smaller than the modulus in magnitude and has the sign of the dividend |
| CArith.CDivUnique | not_worst/src/not_worst.c:43 | CDiv's contract fixes the quotient uniquely, so CDiv is exactly C's truncating division |
| CArith.DivModIdentity | not_worst/src/not_worst.c:36 | C's quotient and remainder reassemble the dividend: `b * (a / b) + a % b == a` |
| CArith.CModIdempotent | not_worst/src/not_worst.c:36 | reducing a value twice by the same modulus is the same as reducing it once |
| CArith.CDivBound | not_worst/src/not_worst.c:38-43 | a quotient is at most k in magnitude when the dividend is at most k divisors |
| HandModel.HandAngle | not_worst/src/not_worst.c:36-38 | the lookup angle `(TRIG_MAX_ANGLE * (value % max_value)) / max_value` with C's `%` and `/`; no contract of its own, its range is stated by HandAngleWithinTurn and its half-dial value by HalfTurnAngle |
| HandModel.HandAngleWithinTurn | not_worst/src/not_worst.c:36-38 | for a non-negative value on a dial of positive size and a positive TRIG_MAX_ANGLE, the lookup angle lies in [0, TRIG_MAX_ANGLE) |
| HandModel.InitHand | not_worst/src/not_worst.c:35-45 | `slope_is_undefined` holds iff x == 0; the slope is 0 when undefined and `CDiv(y * 1000, x)` otherwise; x and y are the looked-up sine and negated cosine rescaled from TRIG_MAX_RATIO to 1000, off by less than one unit and rounded toward zero (the three clauses CDivUnique shows determine C's quotient); the hand satisfies the invariant ValidHand |
| HandModel.InitHandReduces | not_worst/src/not_worst.c:36 | `init_hand(v, m)` and `init_hand(v % m, m)` give identical hands |
| HandModel.SlopeApproximates | not_worst/src/not_worst.c:43 | a defined slope times x misses y * 1000 by less than one x, and the remainder has the sign of y |
| HandModel.HandBounds | not_worst/src/not_worst.c:38-43 | if the lookup results are bounded by TRIG_MAX_RATIO, then abs(x), abs(y) <= 1000 and abs(slope) <= 10^6 |
| HandModel.TwelveOClock | not_worst/src/not_worst.c:38-41 | if the table is exact at angle 0, value 0 gives the hand (0, -1000) with an undefined slope |
| HandModel.HalfTurnAngle | not_worst/src/not_worst.c:36-38 | on an even dial, half the dial looks up half of TRIG_MAX_ANGLE |
| HandModel.SixOClock | not_worst/src/not_worst.c:36-41 | if the table is exact at half a turn, value max/2 gives the hand (0, 1000) with an undefined slope |
| HandColor.Invert | not_worst/src/not_worst.c:99-101 | the inversion never returns its input colour |
| HandColor.InvertInvolution | not_worst/src/not_worst.c:100 | inverting twice gives the colour back |
| HandColor.PointQuadrant | not_worst/src/not_worst.c:64-67 | every point lies in exactly one of the four point quarters Q1 to Q4 |
| HandColor.GetHandColor | not_worst/src/not_worst.c:47-103 | `get_hand_color`, branch for branch; no contract of its own, its properties are the lemmas below: ReversedInverts (the `reversed` flag), UnifiedSweepRule (the four quarter branches as one rule) and ColorIsWedge (the geometric wedge) |
| HandColor.ReversedInverts | not_worst/src/not_worst.c:99-101 | the colour with `reversed` is exactly the inverse of the colour without it, for every hand and point |
| HandColor.UpHandPaintsNothing | not_worst/src/not_worst.c:49-101 | a vertical hand pointing up gives White everywhere, or Black everywhere when reversed |
| HandColor.DownHandPaintsRightHalf | not_worst/src/not_worst.c:53-59 | a vertical hand with y >= 0 gives Black exactly when dx > 0 |
| HandColor.FirstQuarterSweep | not_worst/src/not_worst.c:69-75 | a first-quarter hand gives Black only to points of Q1 |
| HandColor.SecondQuarterSweep | not_worst/src/not_worst.c:76-82 | a second-quarter hand gives Black to all of Q1 and White to all of Q3 and Q4 |
| HandColor.ThirdQuarterSweep | not_worst/src/not_worst.c:83-89 | a third-quarter hand gives Black to all of Q1 and Q2 and White to all of Q4 |
| HandColor.FourthQuarterSweep | not_worst/src/not_worst.c:90-96 | a fourth-quarter hand gives Black to all of Q1, Q2 and Q3 |
| HandColor.UnifiedSweepRule | not_worst/src/not_worst.c:62-97 | the four quarter rules are one rule: Black iff the point's quarter comes strictly before the hand's, or it shares the hand's quarter and lies on the swept side of the line |
| HandColor.BelowLineMatchesCross | not_worst/src/not_worst.c:62 | if 1000 * abs(cross) > abs(dx) * abs(x), the division-free slope test agrees with the sign of the exact cross product of point and hand |
| HandColor.ColorIsWedge | not_worst/src/not_worst.c:62-97 | a non-vertical hand gives Black exactly to the wedge swept clockwise from 12 o'clock to the hand, for every point outside the rounding margin of the slope |
| HandColor.HandShowsWedge | not_worst/src/not_worst.c:62-101 | for a hand within 1000 per axis, every point whose cross product exceeds abs(dx) gets the wedge colour, inverted when reversed |
| FaceRender.SelectRing | not_worst/src/not_worst.c:127-134 | a pixel goes to the innermost ring whose radius it lies strictly inside, or to the background |
| FaceRender.ClampKeepsRing | not_worst/src/not_worst.c:122-134 | capping the squared distance at 4900 never changes which ring is chosen |
| FaceRender.RingEdgesAreStrict | not_worst/src/not_worst.c:128-132 | a pixel exactly on the edge of a ring (squared distance 23², 46² or 70²) belongs to the next ring out |
| FaceRender.PixelColor | not_worst/src/not_worst.c:120-134 | the colour chosen for one pixel: the ring from SelectRing on the squared distance, that ring's hand and its reversal flag from RingReversed, White for the background; no contract of its own, its properties are stated by Sweep, MidnightIsBlank, HalfPastMidnight and RingPixelIsWedge |
| FaceRender.FrameAt | not_worst/src/not_worst.c:109-112 | the frame holds the current time and three hands built by `init_hand` (hours on a 12-position dial, minutes and seconds on 60), each satisfying the hand invariant |
| FaceRender.Sweep | not_worst/src/not_worst.c:114-141 | after the nested loops, exactly the pixels of the 144 x 168 screen have been drawn, with PixelColor: the hour colour (reversed when hour >= 12) if r² < 529, the minute colour (reversed when hour is odd) if r² < 2116, the second colour (reversed when minute is odd) if r² < 4900, White otherwise; the distance clamp is shown not to change any of these choices |
| FaceRender.Render | not_worst/src/not_worst.c:105-141 | the redraw draws exactly the screen's pixels, each with its PixelColor for the hands of the current time |
| FaceRender.FrameHandsBounded | not_worst/src/not_worst.c:110-112 | each hand of a frame has abs(x) <= 1000 and abs(y) <= 1000 when the table is bounded |
| FaceRender.MidnightIsBlank | not_worst/src/not_worst.c:109-134 | at 00:00:00, if the table is exact at angle 0, every pixel of the face is White |
| FaceRender.HalfPastMidnight | not_worst/src/not_worst.c:109-134 | at 00:30:00, if the table is exact at 0 and at half a turn, the minute ring is Black exactly where dx > 0 and the hour disk is White |
| FaceRender.RingPixelIsWedge | not_worst/src/not_worst.c:127-134 | when the table is bounded by TRIG_MAX_RATIO, every pixel in a ring whose hand is not vertical shows that hand's wedge, inverted when the ring is reversed, unless its cross product with the hand is at most abs(dx) |

## Left out

- The contents of `sin_lookup`/`cos_lookup` and the values of `TRIG_MAX_ANGLE`/`TRIG_MAX_RATIO`: they are foreign tables of the operating system and enter the model only as the parameter `Trig`. Lemmas that need a property of the tables (bounded values, exact values at 12 and 6 o'clock) take it as a precondition.
- HandModel.InitHand: does not state that the direction has magnitude close to 1000, because that depends entirely on the foreign tables.
- 32-bit `int` arithmetic: the model uses unbounded integers. With a table bounded by TRIG_MAX_RATIO, HandBounds gives abs(x), abs(y) <= 1000 and abs(slope) <= 10^6. The loops keep abs(dx) <= 72 and abs(dy) <= 84. So no product in the classifier comes near 2^31; this bound is argued here, not proved. The product `sin_lookup(...) * 1000` itself depends on the table and is not bounded here.
- `get_time`: the current time is the method's `Time` parameter.
- `graphics_context_set_stroke_color` and `graphics_draw_pixel`: the pixel sink is the map that `Sweep` fills. The map records the last colour drawn at each point. The order of the draw calls (column by column, top to bottom) is in the loops but not in the postcondition.
- Application registration, window and layer setup, the tick handler and the event loop: these are operating-system plumbing with no logic of their own.
- The commented-out random-colour and text-drawing code at the end of the redraw: it is never executed.
