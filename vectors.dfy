/// Unity's Vector3, over exact reals. Only the operations the wind stream uses
/// are modelled; magnitudes (square roots) are replaced by squared magnitudes.
module Vectors {

  datatype Vec3 = Vec3(x: real, y: real, z: real)

  /// Vector3.zero
  const ZERO_VECTOR := Vec3(0.0, 0.0, 0.0)

  function Plus(a: Vec3, b: Vec3): Vec3 {
    Vec3(a.x + b.x, a.y + b.y, a.z + b.z)
  }

  function Minus(a: Vec3, b: Vec3): Vec3 {
    Vec3(a.x - b.x, a.y - b.y, a.z - b.z)
  }

  function Scale(s: real, a: Vec3): Vec3 {
    Vec3(s * a.x, s * a.y, s * a.z)
  }

  function Dot(a: Vec3, b: Vec3): real {
    a.x * b.x + a.y * b.y + a.z * b.z
  }

  /// Vector3.sqrMagnitude; it is never negative.
  function SqrMagnitude(a: Vec3): (m: real)
    ensures m >= 0.0
  {
    SquareNonnegative(a.x);
    SquareNonnegative(a.y);
    SquareNonnegative(a.z);
    Dot(a, a)
  }

  /// The squared distance between two points.
  function DistSq(a: Vec3, b: Vec3): (d: real)
    ensures d >= 0.0
  {
    SqrMagnitude(Minus(a, b))
  }

  /// The squared distance does not depend on the order of the points.
  lemma DistSqSymmetric(a: Vec3, b: Vec3)
    ensures DistSq(a, b) == SqrMagnitude(Minus(b, a))
  {
    var d, e := Minus(a, b), Minus(b, a);
    assert d.x * d.x == e.x * e.x && d.y * d.y == e.y * e.y && d.z * d.z == e.z * e.z;
  }

  lemma MulPositive(a: real, b: real)
    requires a > 0.0 && b > 0.0
    ensures a * b > 0.0
  {
  }

  lemma SquareNonnegative(r: real)
    ensures r * r >= 0.0
  {
    if r < 0.0 {
      assert r * r == (-r) * (-r);
      MulPositive(-r, -r);
    } else if r > 0.0 {
      MulPositive(r, r);
    }
  }

  /// A comparison of a magnitude `m` with a bound `c` can be made on squares:
  /// `m <= c` holds exactly when `c` is not negative and `m * m <= c * c`.
  lemma SquaredComparison(m: real, c: real)
    requires m >= 0.0
    ensures m <= c <==> (c >= 0.0 && m * m <= c * c)
  {
    if c >= 0.0 {
      assert m * m - c * c == (m - c) * (m + c);
      if m <= c {
        assert (m - c) * (m + c) <= 0.0;
      } else {
        MulPositive(m - c, m + c);
      }
    }
  }

  /// A product with a factor in [0, 1] lies between 0 and the other factor.
  lemma UnitMul(x: real, c: real)
    requires x >= 0.0 && 0.0 <= c <= 1.0
    ensures 0.0 <= x * c <= x
  {
    if x > 0.0 && c > 0.0 {
      MulPositive(x, c);
      if c < 1.0 {
        assert x - x * c == x * (1.0 - c);
        MulPositive(x, 1.0 - c);
      }
    }
  }

  /// Non-negative numbers with equal squares, weighed by the same positive
  /// factor, are equal.
  lemma SquareRootUnique(t: real, s: real, m: real)
    requires t >= 0.0 && s >= 0.0 && m > 0.0
    requires t * t * m == s * s * m
    ensures t == s
  {
    assert (t * t - s * s) * m == 0.0;
    if t * t > s * s {
      MulPositive(t * t - s * s, m);
    } else if t * t < s * s {
      MulPositive(s * s - t * t, m);
    }
    assert (t - s) * (t + s) == t * t - s * s;
    if t > s {
      MulPositive(t - s, t + s);
    } else if t < s {
      MulPositive(s - t, t + s);
    }
  }

  /// A non-negative `t` whose square scales |a|^2 to |s a|^2 is `s`, for a
  /// non-negative `s` and a non-zero `a`.
  lemma ScaledRootUnique(t: real, s: real, a: Vec3)
    requires t >= 0.0 && s >= 0.0 && SqrMagnitude(a) > 0.0
    requires t * t * SqrMagnitude(a) == SqrMagnitude(Scale(s, a))
    ensures t == s
  {
    SqrMagnitudeOfScale(s, a);
    SquareRootUnique(t, s, SqrMagnitude(a));
  }

  lemma DivOfProduct(s: real, m: real)
    requires m != 0.0
    ensures (s * m) / m == s
  {
  }

  lemma DotOfPlus(a: Vec3, b: Vec3, c: Vec3)
    ensures Dot(Plus(a, b), c) == Dot(a, c) + Dot(b, c)
  {
  }

  /// Scaling by a scalar scales the squared magnitude by its square.
  lemma SqrMagnitudeOfScale(s: real, a: Vec3)
    ensures SqrMagnitude(Scale(s, a)) == s * s * SqrMagnitude(a)
  {
    calc {
      SqrMagnitude(Scale(s, a));
      (s * a.x) * (s * a.x) + (s * a.y) * (s * a.y) + (s * a.z) * (s * a.z);
      s * s * (a.x * a.x + a.y * a.y + a.z * a.z);
    }
  }

  /// Dot is linear in its first argument.
  lemma DotOfMinus(a: Vec3, b: Vec3, c: Vec3)
    ensures Dot(Minus(a, b), c) == Dot(a, c) - Dot(b, c)
  {
  }

  lemma DotOfScale(s: real, a: Vec3, b: Vec3)
    ensures Dot(Scale(s, a), b) == s * Dot(a, b)
  {
  }

  lemma ScaleOfZero(s: real)
    ensures Scale(s, ZERO_VECTOR) == ZERO_VECTOR
  {
  }
}
