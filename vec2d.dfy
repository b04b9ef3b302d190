/** The linear part of the 2D vector type (Vec2D.js). Every operation builds a new
    value; positions are copied wherever they are stored, so a value type is faithful. */
module Vec2D {
  import GeneralMath

  datatype Vec = Vec(x: real, y: real)
  {
    /** A copy has the same components (and, as a value, shares nothing). */
    function Copy(): (v: Vec)
      ensures v.x == x && v.y == y
    {
      Vec(x, y)
    }

    /** Set replaces both components; the value stands for the mutated vector. */
    function Set(newX: real, newY: real): (v: Vec)
      ensures v.x == newX && v.y == newY
    {
      Vec(newX, newY)
    }

    function Add(o: Vec): (v: Vec)
    {
      Vec(x + o.x, y + o.y)
    }

    function Sub(o: Vec): (v: Vec)
    {
      Vec(x - o.x, y - o.y)
    }

    function Mult(s: real): (v: Vec)
    {
      Vec(x * s, y * s)
    }

    function Div(s: real): (v: Vec)
      requires s != 0.0
      ensures v.Mult(s) == this
    {
      Vec(x / s, y / s)
    }

    function Negate(): (v: Vec)
      ensures v.Add(this) == Vec(0.0, 0.0)
    {
      Vec(-x, -y)
    }

    function ComponentWiseMultiply(o: Vec): (v: Vec)
    {
      Vec(x * o.x, y * o.y)
    }

    function ComponentWiseDivide(o: Vec): (v: Vec)
      requires o.x != 0.0 && o.y != 0.0
      ensures v.ComponentWiseMultiply(o) == this
    {
      Vec(x / o.x, y / o.y)
    }

    function DotProduct(o: Vec): real
    {
      x * o.x + y * o.y
    }

    function MagnitudeSquared(): (m: real)
      ensures m >= 0.0
      ensures m == DotProduct(this)
    {
      x * x + y * y
    }

    /** The vector rotated a quarter turn: (y, -x). */
    function GetOrthogonalVector(): (v: Vec)
      ensures v.DotProduct(this) == 0.0
    {
      Vec(y, -x)
    }

    function DistanceToPointSquared(p: Vec): (d: real)
      ensures d == p.Sub(this).MagnitudeSquared()
      ensures d >= 0.0
    {
      (p.x - x) * (p.x - x) + (p.y - y) * (p.y - y)
    }

    function InterpolateToVector(o: Vec, fraction: real): (v: Vec)
    {
      Add(o.Sub(this).Mult(fraction))
    }
  }

  /** Both components are within the GeneralMath tolerance. */
  predicate ApproxEqual(a: Vec, b: Vec)
  {
    GeneralMath.Abs(a.x - b.x) <= 0.000001 && GeneralMath.Abs(a.y - b.y) <= 0.000001
  }

  lemma ApproxEqualPerComponent(a: Vec, b: Vec)
    ensures ApproxEqual(a, b) <==>
      GeneralMath.ApproxEqual(a.x, b.x) && GeneralMath.ApproxEqual(a.y, b.y)
    ensures ApproxEqual(a, b) <==> ApproxEqual(b, a)
  {
  }

  lemma AddSubInverse(a: Vec, b: Vec)
    ensures a.Add(b).Sub(b) == a
    ensures a.Sub(b).Add(b) == a
  {
  }

  lemma NegateInvolution(a: Vec)
    ensures a.Negate().Negate() == a
  {
  }

  lemma AddCommutes(a: Vec, b: Vec)
    ensures a.Add(b) == b.Add(a)
  {
  }

  lemma ComponentWiseOperations(a: Vec, b: Vec)
    ensures a.ComponentWiseMultiply(b).x == a.x * b.x
    ensures a.ComponentWiseMultiply(b).y == a.y * b.y
    ensures b.x != 0.0 && b.y != 0.0 ==>
      a.ComponentWiseDivide(b).x == a.x / b.x && a.ComponentWiseDivide(b).y == a.y / b.y
  {
  }

  /** Two quarter turns negate the vector. */
  lemma OrthogonalTwice(a: Vec)
    ensures a.GetOrthogonalVector().GetOrthogonalVector() == a.Negate()
  {
  }

  lemma DistanceSymmetric(a: Vec, b: Vec)
    ensures a.DistanceToPointSquared(b) == b.DistanceToPointSquared(a)
  {
  }

  lemma InterpolateEnds(a: Vec, b: Vec)
    ensures a.InterpolateToVector(b, 0.0) == a
    ensures a.InterpolateToVector(b, 1.0) == b
  {
  }

  /** The interpolated point splits the segment in the given ratio. */
  lemma InterpolateDistance(a: Vec, b: Vec, t: real)
    ensures a.DistanceToPointSquared(a.InterpolateToVector(b, t)) ==
      t * t * a.DistanceToPointSquared(b)
  {
    var d := b.Sub(a);
    assert a.InterpolateToVector(b, t).Sub(a) == d.Mult(t);
    assert d.Mult(t).MagnitudeSquared() == t * t * d.MagnitudeSquared();
  }
}
