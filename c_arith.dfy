/**
 * C's integer division and remainder. C truncates the quotient toward zero,
 * so the remainder takes the sign of the dividend; Dafny's own `/` and `%`
 * are Euclidean. The watch face divides values of either sign, so every C
 * division in the model goes through CDiv and CMod below.
 */
module CArith {

  function Abs(n: int): nat
  {
    if n < 0 then -n else n
  }

  /** `a / b` in C: the quotient rounded toward zero. */
  function CDiv(a: int, b: int): (q: int)
    requires b != 0
    ensures Abs(a - b * q) < Abs(b)
    ensures a >= 0 ==> a - b * q >= 0
    ensures a <= 0 ==> a - b * q <= 0
  {
    if a >= 0 then
      if b > 0 then a / b else -(a / -b)
    else
      if b > 0 then -((-a) / b) else (-a) / (-b)
  }

  /** `a % b` in C: the remainder, carrying the sign of the dividend. */
  function CMod(a: int, b: int): (r: int)
    requires b != 0
    ensures Abs(r) < Abs(b)
    ensures a >= 0 ==> r >= 0
    ensures a <= 0 ==> r <= 0
  {
    if a >= 0 then a % Abs(b) else -((-a) % Abs(b))
  }

  /** A non-zero multiple of b is at least as large as b. */
  lemma MultipleAtLeast(b: int, d: int)
    requires d != 0
    ensures Abs(b * d) >= Abs(b)
  {
    if b >= 0 && d > 0 {
      assert b * d == b + b * (d - 1);
    } else if b >= 0 {
      assert -(b * d) == b + b * (-d - 1);
    } else if d > 0 {
      assert -(b * d) == -b + (-b) * (d - 1);
    } else {
      assert b * d == -b + (-b) * (-d - 1);
    }
  }

  /**
   * The contract of CDiv determines the quotient: a remainder smaller than the
   * divisor with the sign of the dividend fixes truncation toward zero.
   */
  lemma {:induction false} CDivUnique(a: int, b: int, q: int)
    requires b != 0
    requires Abs(a - b * q) < Abs(b)
    requires a >= 0 ==> a - b * q >= 0
    requires a <= 0 ==> a - b * q <= 0
    ensures q == CDiv(a, b)
  {
    var q' := CDiv(a, b);
    assert b * (q' - q) == (a - b * q) - (a - b * q');
    assert Abs(b * (q' - q)) < Abs(b);
    if q' != q {
      MultipleAtLeast(b, q' - q);
    }
  }

  /** C's quotient and remainder reassemble the dividend. */
  lemma {:induction false} DivModIdentity(a: int, b: int)
    requires b != 0
    ensures b * CDiv(a, b) + CMod(a, b) == a
  {
    var m := Abs(b);
    if a >= 0 {
      assert a == m * (a / m) + a % m;
    } else {
      assert -a == m * ((-a) / m) + (-a) % m;
    }
  }

  /** Multiplying by a non-negative factor keeps an order. */
  lemma MulMonotone(c: nat, x: int, y: int)
    requires x <= y
    ensures c * x <= c * y
  {
    assert c * y - c * x == c * (y - x);
  }

  /** A non-negative value below the modulus is its own remainder. */
  lemma {:induction false} ModSmall(r: int, m: int)
    requires 0 <= r < m
    ensures r % m == r
  {
    var q := r / m;
    assert r == m * q + r % m;
    if q != 0 {
      MultipleAtLeast(m, q);
    }
  }

  /** Reducing twice by the same modulus is reducing once. */
  lemma {:induction false} CModIdempotent(a: int, b: int)
    requires b != 0
    ensures CMod(CMod(a, b), b) == CMod(a, b)
  {
    var m := Abs(b);
    var r := CMod(a, b);
    if r >= 0 {
      ModSmall(r, m);
    } else {
      ModSmall(-r, m);
    }
  }

  /** The magnitude of a C quotient is the quotient of the magnitudes. */
  lemma CDivAbs(a: int, b: int)
    requires b != 0
    ensures Abs(CDiv(a, b)) == Abs(a) / Abs(b)
  {
    var m: nat := Abs(b);
    var n: nat := Abs(a);
    assert n / m >= 0 by {
      assert n == m * (n / m) + n % m;
      if n / m < 0 {
        MulMonotone(m, n / m, -1);
      }
    }
  }

  /** A quotient is bounded by k when the dividend is at most k divisors. */
  lemma {:induction false} CDivBound(a: int, b: int, k: nat)
    requires b != 0
    requires Abs(a) <= k * Abs(b)
    ensures Abs(CDiv(a, b)) <= k
  {
    var m: nat := Abs(b);
    var n: nat := Abs(a);
    var d := n / m;
    CDivAbs(a, b);
    if d > k {
      assert n == m * d + n % m;
      MulMonotone(m, k + 1, d);
      assert false;
    }
  }

  /** |a * b| == |a| * |b| */
  lemma AbsMul(a: int, b: int)
    ensures Abs(a * b) == Abs(a) * Abs(b)
  {
    if a < 0 && b < 0 { assert a * b == (-a) * (-b); }
    else if a < 0 { assert -(a * b) == (-a) * b; }
    else if b < 0 { assert -(a * b) == a * (-b); }
  }

  /** The sign of a product follows the signs of its factors. */
  lemma MulSign(a: int, b: int)
    ensures a * b > 0 <==> (a > 0 && b > 0) || (a < 0 && b < 0)
  {
    if a > 0 && b < 0 { MulMonotone(a, b, 0); }
    else if a < 0 && b > 0 { MulMonotone(b, a, 0); }
    else if a > 0 && b > 0 { MulMonotone(a, 1, b); }
    else if a < 0 && b < 0 { MulMonotone(-a, 1, -b); }
  }
}
