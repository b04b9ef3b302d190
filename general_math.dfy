/** Tolerant comparisons, floor and rounding over exact reals (GeneralMath.js). */
module GeneralMath {

  /** The tolerance every approximate comparison uses. */
  const Eps: real := 0.000001

  function Abs(x: real): (r: real)
    ensures r >= 0.0 && (r == x || r == -x)
  {
    if x < 0.0 then -x else x
  }

  /** `a` and `b` are within Eps of each other. */
  predicate ApproxEqual(a: real, b: real)
  {
    Abs(a - b) <= Eps
  }

  lemma ApproxEqualMeaning(a: real, b: real)
    ensures ApproxEqual(a, b) <==> b - Eps <= a <= b + Eps
    ensures ApproxEqual(a, b) <==> ApproxEqual(b, a)
  {
  }

  predicate ApproxGreaterOrEqual(a: real, b: real)
  {
    a >= b || Abs(a - b) <= Eps
  }

  predicate ApproxLessOrEqual(a: real, b: real)
  {
    a <= b || Abs(a - b) <= Eps
  }

  lemma ApproxOrderMeaning(a: real, b: real)
    ensures ApproxGreaterOrEqual(a, b) <==> a >= b - Eps
    ensures ApproxGreaterOrEqual(a, b) <==> (a >= b || ApproxEqual(a, b))
    ensures ApproxLessOrEqual(a, b) <==> a <= b + Eps
    ensures ApproxLessOrEqual(a, b) <==> ApproxGreaterOrEqual(b, a)
  {
  }

  /** Math.floor, Math.ceil and Math.round of JavaScript on exact reals. */
  function Floor(x: real): (n: int)
    ensures n as real <= x < n as real + 1.0
  {
    x.Floor
  }

  function Ceil(x: real): (n: int)
    ensures x <= n as real < x + 1.0
  {
    -((-x).Floor)
  }

  /** Math.round rounds halves up, towards positive infinity. */
  function JsRound(x: real): (n: int)
    ensures n as real - 0.5 <= x < n as real + 0.5
  {
    (x + 0.5).Floor
  }

  /** Floor, except that a value at most Eps below an integer gives that integer. */
  function ApproxFloor(x: real): (n: int)
  {
    var distanceToInt := x - JsRound(x) as real;
    if -Eps <= distanceToInt < 0.0 then Ceil(x) else Floor(x)
  }

  /** ApproxFloor(x) is the integer n with n - Eps <= x < n + 1 - Eps. */
  lemma ApproxFloorBounds(x: real)
    ensures ApproxFloor(x) as real - Eps <= x < ApproxFloor(x) as real + 1.0 - Eps
  {
    var r := JsRound(x);
    var f := Floor(x);
    if -Eps <= x - r as real < 0.0 {
      CeilUnique(x, r);
      assert ApproxFloor(x) == r;
    } else {
      assert ApproxFloor(x) == f;
      if x >= f as real + 1.0 - Eps {
        FloorUnique(x + 0.5, f + 1);
        assert false;
      }
    }
  }

  lemma FloorUnique(x: real, n: int)
    requires n as real <= x < n as real + 1.0
    ensures Floor(x) == n
  {
  }

  lemma CeilUnique(x: real, n: int)
    requires n as real - 1.0 < x <= n as real
    ensures Ceil(x) == n
  {
    FloorUnique(-x, -n);
  }

  /** The bounds characterise the result: exactly one integer satisfies them. */
  lemma ApproxFloorUnique(x: real, n: int)
    ensures ApproxFloor(x) == n <==> n as real - Eps <= x < n as real + 1.0 - Eps
  {
    ApproxFloorBounds(x);
  }

  lemma ApproxFloorOfInteger(n: int)
    ensures ApproxFloor(n as real) == n
  {
    ApproxFloorUnique(n as real, n);
  }

  lemma ApproxFloorOfHalf(n: int)
    ensures ApproxFloor(n as real + 0.5) == n
  {
    ApproxFloorUnique(n as real + 0.5, n);
  }

  /** GeneralMath.Round: x.5 rounds to x + 1. */
  function Round(x: real): (n: int)
  {
    var rounded := Floor(x);
    if x - rounded as real >= 0.5 then rounded + 1 else rounded
  }

  /** Round agrees with Math.round and lands within one half of x. */
  lemma RoundIsJsRound(x: real)
    ensures Round(x) == JsRound(x)
    ensures Round(x) as real - 0.5 <= x < Round(x) as real + 0.5
    ensures Round(x) == Floor(x) + 1 <==> x - Floor(x) as real >= 0.5
  {
  }

  /** JavaScript's `%` on numbers: the remainder takes the sign of the dividend. */
  function Trunc(q: real): (n: int)
    ensures Abs(n as real) <= Abs(q) < Abs(n as real) + 1.0
    ensures q >= 0.0 ==> n >= 0
    ensures q <= 0.0 ==> n <= 0
  {
    if q >= 0.0 then q.Floor else -((-q).Floor)
  }

  function JsRemainder(x: real, d: real): (r: real)
    requires d != 0.0
  {
    x - d * Trunc(x / d) as real
  }

  lemma JsRemainderBounds(x: real, d: real)
    requires d != 0.0
    ensures Abs(JsRemainder(x, d)) < Abs(d)
    ensures x >= 0.0 ==> JsRemainder(x, d) >= 0.0
    ensures x <= 0.0 ==> JsRemainder(x, d) <= 0.0
  {
    RemainderBelow(x, d);
    RemainderSign(x, d);
  }

  lemma RemainderBelow(x: real, d: real)
    requires d != 0.0
    ensures Abs(JsRemainder(x, d)) < Abs(d)
  {
    RemainderScaled(x, d);
    ScaledBelow(d, Frac(x / d));
  }

  lemma RemainderSign(x: real, d: real)
    requires d != 0.0
    ensures x >= 0.0 ==> JsRemainder(x, d) >= 0.0
    ensures x <= 0.0 ==> JsRemainder(x, d) <= 0.0
  {
    RemainderScaled(x, d);
    QuotientSign(x, d);
    SignOfProduct(d, x / d);
  }

  /** x / d is non-negative when x and d share a sign, non-positive otherwise. */
  lemma QuotientSign(x: real, d: real)
    requires d != 0.0
    ensures x >= 0.0 ==> d * (x / d) >= 0.0
    ensures x <= 0.0 ==> d * (x / d) <= 0.0
  {
    assert d * (x / d) == x;
  }

  /** The part of q that truncation drops, with q's sign. */
  function Frac(q: real): (f: real)
    ensures Abs(f) < 1.0
  {
    q - Trunc(q) as real
  }

  /** The remainder is the divisor times the fractional part of the quotient. */
  lemma RemainderScaled(x: real, d: real)
    requires d != 0.0
    ensures x == d * (x / d)
    ensures JsRemainder(x, d) == d * Frac(x / d)
  {
    var q, t := x / d, Trunc(x / d) as real;
    assert d * q == x;
    Distributes(d, q, t);
  }

  lemma Distributes(d: real, a: real, b: real)
    ensures d * (a - b) == d * a - d * b
    ensures d * (a + b) == d * a + d * b
  {
  }

  lemma MulAbs(a: real, b: real)
    ensures Abs(a * b) == Abs(a) * Abs(b)
  {
  }

  lemma ScaledBelow(d: real, f: real)
    requires d != 0.0 && Abs(f) < 1.0
    ensures Abs(d * f) < Abs(d)
  {
    MulAbs(d, f);
    ProductBelow(Abs(d), Abs(f));
  }

  lemma ProductBelow(a: real, b: real)
    requires a > 0.0 && 0.0 <= b < 1.0
    ensures a * b < a
  {
  }

  /** q and its fractional part share a sign, so d * q and d * Frac(q) do too. */
  lemma SignOfProduct(d: real, q: real)
    ensures d * q >= 0.0 ==> d * Frac(q) >= 0.0
    ensures d * q <= 0.0 ==> d * Frac(q) <= 0.0
  {
    var f := Frac(q);
    assert q >= 0.0 ==> f >= 0.0;
    assert q <= 0.0 ==> f <= 0.0;
  }

  /** `r` is an integer multiple of `d`. */
  predicate IsMultiple(r: real, d: real)
    requires d != 0.0
  {
    (r / d).Floor as real == r / d
  }

  /** GeneralMath.RoundToNearest: round to a multiple of the interval, halves away from
      zero (the source's comment says midpoints are rounded up, which differs for
      negative values). */
  function RoundToNearest(x: real, interval: real): (r: real)
    requires interval != 0.0
  {
    var remainder := JsRemainder(x, interval);
    var rounded := x - remainder;
    if Abs(remainder) >= interval / 2.0 then
      (if x >= 0.0 then rounded + interval else rounded - interval)
    else rounded
  }

  lemma MultipleOf(k: int, d: real)
    requires d != 0.0
    ensures IsMultiple(d * k as real, d)
  {
    assert (d * k as real) / d == k as real;
  }

  lemma RoundToNearestIsMultiple(x: real, interval: real)
    requires interval != 0.0
    ensures IsMultiple(RoundToNearest(x, interval), interval)
  {
    var t := Trunc(x / interval);
    var rem := JsRemainder(x, interval);
    var k := if Abs(rem) < interval / 2.0 then t else if x >= 0.0 then t + 1 else t - 1;
    RoundedIsScaled(x, interval, t, k);
    MultipleOf(k, interval);
  }

  /** The rounded value is the interval times the truncated quotient, moved one step
      away from zero when the remainder is at least half the interval. */
  lemma RoundedIsScaled(x: real, d: real, t: int, k: int)
    requires d != 0.0 && t == Trunc(x / d)
    requires k == if Abs(JsRemainder(x, d)) < d / 2.0 then t else if x >= 0.0 then t + 1 else t - 1
    ensures RoundToNearest(x, d) == d * k as real
  {
    assert x - JsRemainder(x, d) == d * t as real;
    Distributes(d, t as real, 1.0);
  }

  /** For a positive interval the result is a nearest multiple, and a remainder of at
      least half the interval moves the result away from zero. */
  lemma RoundToNearestIsNearest(x: real, interval: real)
    requires interval > 0.0
    ensures var r := RoundToNearest(x, interval);
      r - interval / 2.0 <= x <= r + interval / 2.0
    ensures Abs(JsRemainder(x, interval)) >= interval / 2.0 ==>
      Abs(RoundToNearest(x, interval)) >= Abs(x)
    ensures Abs(JsRemainder(x, interval)) < interval / 2.0 ==>
      Abs(RoundToNearest(x, interval)) <= Abs(x)
  {
    JsRemainderBounds(x, interval);
  }

  lemma RoundToNearestExample()
    ensures RoundToNearest(3.6, 0.5) == 3.5
  {
    assert 3.6 / 0.5 == 7.2;
    assert Trunc(7.2) == 7;
  }

  /** A negative midpoint goes down, away from zero, not up. */
  lemma RoundToNearestNegativeMidpoint()
    ensures RoundToNearest(-3.75, 0.5) == -4.0
  {
    assert -3.75 / 0.5 == -7.5;
    assert Trunc(-7.5) == -7;
  }
}
