/**
 * The Hand of the watch face: the fixed-point direction of a clock hand
 * (scaled so that 1000 stands for 1.0, screen y growing downward) and the
 * slope of the line it lies on, with a flag for the vertical positions.
 *
 * The operating system's trigonometry tables `sin_lookup`/`cos_lookup` and
 * their constants TRIG_MAX_ANGLE/TRIG_MAX_RATIO are foreign to the program;
 * they enter the model as a Trig value, so everything proved here holds for
 * whatever tables the host supplies.
 */
module HandModel {
  import opened CArith

  /** The host's fixed-point trigonometry: angles in [0, maxAngle) make a full turn, results are scaled to maxRatio. */
  datatype Trig = Trig(maxAngle: int, maxRatio: int, sin: int -> int, cos: int -> int)

  /** The `Hand` struct: direction (x, y) and slope * 1000, undefined for vertical hands. */
  datatype Hand = Hand(x: int, y: int, slopeTimes1000: int, slopeIsUndefined: bool)

  /** What init_hand establishes about every hand it builds. */
  predicate ValidHand(h: Hand)
  {
    && (h.slopeIsUndefined <==> h.x == 0)
    && h.slopeTimes1000 == (if h.x == 0 then 0 else CDiv(h.y * 1000, h.x))
  }

  /** The lookup angle for a time value, after reducing the value modulo its range. */
  function HandAngle(value: int, maxValue: int, t: Trig): int
    requires maxValue != 0
  {
    CDiv(t.maxAngle * CMod(value, maxValue), maxValue)
  }

  /** A non-negative time value on a dial looks up an angle within one turn, [0, maxAngle). */
  lemma {:induction false} HandAngleWithinTurn(value: int, maxValue: int, t: Trig)
    requires maxValue > 0 && t.maxAngle > 0 && value >= 0
    ensures 0 <= HandAngle(value, maxValue, t) < t.maxAngle
  {
    var r := CMod(value, maxValue);
    var p := t.maxAngle * r;
    var q := HandAngle(value, maxValue, t);
    MulMonotone(t.maxAngle, 0, r);
    MulMonotone(t.maxAngle, r, maxValue - 1);
    assert p < maxValue * t.maxAngle;
    if q < 0 {
      MulMonotone(maxValue, q, -1);
    } else if q >= t.maxAngle {
      MulMonotone(maxValue, t.maxAngle, q);
    }
  }

  /** init_hand: the hand for `value` on a dial of `maxValue` positions. */
  function InitHand(value: int, maxValue: int, t: Trig): (h: Hand)
    requires maxValue != 0 && t.maxRatio != 0
    ensures ValidHand(h)
    // the direction is the looked-up sine and negated cosine rescaled to 1000, rounded toward zero:
    // off by less than one unit, with the remainder on the side of the scaled lookup's sign
    ensures var s := t.sin(HandAngle(value, maxValue, t)) * 1000;
            && Abs(s - t.maxRatio * h.x) < Abs(t.maxRatio)
            && (s >= 0 ==> s - t.maxRatio * h.x >= 0)
            && (s <= 0 ==> s - t.maxRatio * h.x <= 0)
    ensures var c := -t.cos(HandAngle(value, maxValue, t)) * 1000;
            && Abs(c - t.maxRatio * h.y) < Abs(t.maxRatio)
            && (c >= 0 ==> c - t.maxRatio * h.y >= 0)
            && (c <= 0 ==> c - t.maxRatio * h.y <= 0)
  {
    var angle := HandAngle(value, maxValue, t);
    var x := CDiv(t.sin(angle) * 1000, t.maxRatio);
    var y := CDiv(-t.cos(angle) * 1000, t.maxRatio);
    var undefined := x == 0;
    Hand(x, y, if undefined then 0 else CDiv(y * 1000, x), undefined)
  }

  /** The time value is reduced first, so a value and its remainder give the same hand. */
  lemma {:induction false} InitHandReduces(value: int, maxValue: int, t: Trig)
    requires maxValue != 0 && t.maxRatio != 0
    ensures InitHand(value, maxValue, t) == InitHand(CMod(value, maxValue), maxValue, t)
  {
    CModIdempotent(value, maxValue);
  }

  /**
   * A defined slope is y/x in fixed point, rounded toward zero: slope * x
   * misses y * 1000 by less than one x, on the side of zero.
   */
  lemma SlopeApproximates(h: Hand)
    requires ValidHand(h) && !h.slopeIsUndefined
    ensures Abs(h.y * 1000 - h.x * h.slopeTimes1000) < Abs(h.x)
    ensures h.y >= 0 ==> h.y * 1000 - h.x * h.slopeTimes1000 >= 0
    ensures h.y <= 0 ==> h.y * 1000 - h.x * h.slopeTimes1000 <= 0
  {
  }

  /** Lookup results never exceed maxRatio in magnitude, as a unit-circle table promises. */
  ghost predicate BoundedLookup(t: Trig)
  {
    t.maxRatio != 0 &&
    forall a :: Abs(t.sin(a)) <= Abs(t.maxRatio) && Abs(t.cos(a)) <= Abs(t.maxRatio)
  }

  /** With a bounded table a hand stays within 1000 per axis and its slope within 10^6. */
  lemma {:induction false} HandBounds(value: int, maxValue: int, t: Trig)
    requires maxValue != 0 && BoundedLookup(t)
    ensures Abs(InitHand(value, maxValue, t).x) <= 1000
    ensures Abs(InitHand(value, maxValue, t).y) <= 1000
    ensures Abs(InitHand(value, maxValue, t).slopeTimes1000) <= 1000000
  {
    var angle := HandAngle(value, maxValue, t);
    var s, c := t.sin(angle), -t.cos(angle);
    var r := Abs(t.maxRatio);
    assert Abs(s) <= r && Abs(c) <= r;
    assert Abs(s * 1000) <= 1000 * r by {
      MulMonotone(1000, Abs(s), r);
    }
    assert Abs(c * 1000) <= 1000 * r by {
      MulMonotone(1000, Abs(c), r);
    }
    CDivBound(s * 1000, t.maxRatio, 1000);
    CDivBound(c * 1000, t.maxRatio, 1000);
    var h := InitHand(value, maxValue, t);
    if !h.slopeIsUndefined {
      assert Abs(h.y * 1000) <= 1000000 * Abs(h.x) by {
        MulMonotone(1000, Abs(h.y), 1000);
        MulMonotone(1000000, 1, Abs(h.x));
      }
      CDivBound(h.y * 1000, h.x, 1000000);
    }
  }

  /** The 12-o'clock hand: value 0 points straight up with an undefined slope. */
  lemma TwelveOClock(maxValue: int, t: Trig)
    requires maxValue != 0 && t.maxRatio != 0
    requires t.sin(0) == 0 && t.cos(0) == t.maxRatio
    ensures InitHand(0, maxValue, t) == Hand(0, -1000, 0, true)
  {
    assert HandAngle(0, maxValue, t) == 0;
    CDivUnique(-t.maxRatio * 1000, t.maxRatio, -1000);
  }

  /** Half a dial of an even size is half the full angle. */
  lemma {:induction false} HalfTurnAngle(maxValue: int, t: Trig)
    requires maxValue > 0 && maxValue % 2 == 0 && t.maxAngle >= 0
    ensures HandAngle(maxValue / 2, maxValue, t) == t.maxAngle / 2
  {
    var k := maxValue / 2;
    var a := t.maxAngle;
    assert CMod(k, maxValue) == k by {
      ModSmall(k, maxValue);
    }
    var q := a / 2;
    assert a == 2 * q + a % 2;
    // a * k - maxValue * q == k * (a % 2), which lies in [0, k]
    assert a * k - maxValue * q == k * (a % 2) by {
      assert maxValue == 2 * k;
      assert a * k == (2 * q + a % 2) * k;
    }
    assert 0 <= k * (a % 2) <= k by {
      MulMonotone(k, a % 2, 1);
      MulMonotone(k, 0, a % 2);
    }
    CDivUnique(a * k, maxValue, q);
  }

  /** The 6-o'clock hand: half a dial points straight down with an undefined slope. */
  lemma SixOClock(maxValue: int, t: Trig)
    requires maxValue > 0 && maxValue % 2 == 0 && t.maxAngle >= 0 && t.maxRatio != 0
    requires t.sin(t.maxAngle / 2) == 0 && t.cos(t.maxAngle / 2) == -t.maxRatio
    ensures InitHand(maxValue / 2, maxValue, t) == Hand(0, 1000, 0, true)
  {
    HalfTurnAngle(maxValue, t);
    CDivUnique(t.maxRatio * 1000, t.maxRatio, 1000);
  }
}
