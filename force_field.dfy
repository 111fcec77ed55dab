/// The geometry of WindStream.cs: the projection of a vector onto a segment
/// axis, the truncated-cone test of IsPointInCone, the radius taper along the
/// recorded path and the newest-first search for the segment that contains a
/// point (CalculateForceFieldInfo), all over exact reals.
///
/// Square roots are never taken. The cone parameter `t = |projection| / |axis|`
/// is replaced by the projection scalar, which equals it wherever it is used
/// (ConeParameterIsProjectionScalar), and the radius test
/// `|rejection| <= r + particleRadius` is made on squares (RadiusTestOnSquares).
module ForceField {
  import opened Vectors

  /// The fields of the wind stream that the field query reads; the
  /// radialMultiplier is `speed / startSpeed`, computed by the caller.
  datatype FieldConfig = FieldConfig(
    minRadius: real,
    maxRadius: real,
    radialMultiplier: real,
    particleRadius: real,
    k: real)

  /// WindStreamForceFieldInfo: the decomposition of the query point against
  /// the segment that contains it, the segment's axis and the spring force.
  datatype FieldInfo = FieldInfo(projection: Vec3, rejection: Vec3, axis: Vec3, force: Vec3)

  /// WindStreamForceFieldInfo.ZERO, returned when no segment contains the point.
  const ZERO := FieldInfo(ZERO_VECTOR, ZERO_VECTOR, ZERO_VECTOR, ZERO_VECTOR)

  /// The factor `.4f` in the spring force.
  const SPRING_SCALE := 0.4

  /// The two-element array returned by GetProjection.
  datatype Decomposition = Decomposition(projection: Vec3, rejection: Vec3)

  /// `Dot(a, b) / b.sqrMagnitude`: the coordinate of the projection of `a`
  /// along `b`.
  function ProjectionScalar(a: Vec3, b: Vec3): real
    requires SqrMagnitude(b) > 0.0
  {
    Dot(a, b) / SqrMagnitude(b)
  }

  /// GetProjection: splits `a` into a part along `b` and a part perpendicular
  /// to it, which add up to `a`.
  function GetProjection(a: Vec3, b: Vec3): (d: Decomposition)
    requires SqrMagnitude(b) > 0.0
    ensures Plus(d.projection, d.rejection) == a
    ensures d.projection == Scale(ProjectionScalar(a, b), b)
    ensures Dot(d.rejection, b) == 0.0
  {
    var s := ProjectionScalar(a, b);
    var p := Scale(s, b);
    DotOfMinus(a, p, b);
    DotOfScale(s, b, b);
    assert s * SqrMagnitude(b) == Dot(a, b);
    Decomposition(p, Minus(a, p))
  }

  /// The decomposition is the only one of its kind: any multiple of `b` plus
  /// a vector perpendicular to `b` that recompose `a` are GetProjection's.
  lemma ProjectionIsUnique(a: Vec3, b: Vec3, s: real, r: Vec3)
    requires SqrMagnitude(b) > 0.0
    requires Plus(Scale(s, b), r) == a && Dot(r, b) == 0.0
    ensures s == ProjectionScalar(a, b)
    ensures GetProjection(a, b) == Decomposition(Scale(s, b), r)
  {
    assert s == ProjectionScalar(a, b) by {
      ScalarOfDecomposition(a, b, s, r);
      DivOfProduct(s, SqrMagnitude(b));
    }
    var d := GetProjection(a, b);
    assert d.rejection == r by {
      assert Plus(Scale(s, b), d.rejection) == Plus(Scale(s, b), r);
    }
  }

  /// The coordinate of a decomposition along `b` is fixed by the dot product.
  lemma ScalarOfDecomposition(a: Vec3, b: Vec3, s: real, r: Vec3)
    requires Plus(Scale(s, b), r) == a && Dot(r, b) == 0.0
    ensures Dot(a, b) == s * SqrMagnitude(b)
  {
    DotOfPlus(Scale(s, b), r, b);
    DotOfScale(s, b, b);
  }

  /// The slab test of IsPointInCone: `q` lies between the planes through `p1`
  /// and `p2` perpendicular to the axis `p2 - p1`.
  predicate BetweenLids(q: Vec3, p1: Vec3, p2: Vec3) {
    var axis := Minus(p2, p1);
    Dot(Minus(q, p1), axis) >= 0.0 && Dot(Minus(q, p2), axis) <= 0.0
  }

  /// The two plane tests are one interval test on `Dot(q - p1, axis)`, and for
  /// a segment of non-zero length they say that the projection scalar of
  /// `q - p1` lies in [0, 1].
  lemma LidsAsInterval(q: Vec3, p1: Vec3, p2: Vec3)
    ensures BetweenLids(q, p1, p2) <==>
      0.0 <= Dot(Minus(q, p1), Minus(p2, p1)) <= SqrMagnitude(Minus(p2, p1))
    ensures SqrMagnitude(Minus(p2, p1)) > 0.0 ==>
      (BetweenLids(q, p1, p2) <==> 0.0 <= ProjectionScalar(Minus(q, p1), Minus(p2, p1)) <= 1.0)
  {
    var axis := Minus(p2, p1);
    assert Minus(q, p2) == Minus(Minus(q, p1), axis);
    DotOfMinus(Minus(q, p1), axis, axis);
    var m := SqrMagnitude(axis);
    if m > 0.0 {
      var d := Dot(Minus(q, p1), axis);
      ScalarInUnitInterval(d, m);
    }
  }

  /// For a positive m, `0 <= d <= m` exactly when `0 <= d / m <= 1`.
  lemma ScalarInUnitInterval(d: real, m: real)
    requires m > 0.0
    ensures (0.0 <= d <= m) <==> (0.0 <= d / m <= 1.0)
  {
    var s := d / m;
    assert d == s * m;
    if s < 0.0 {
      MulPositive(-s, m);
    } else if s > 1.0 {
      MulPositive(s - 1.0, m);
    } else {
      UnitMul(m, s);
    }
  }

  /// Mathf.Clamp01.
  function Clamp01(t: real): (c: real)
    ensures 0.0 <= c <= 1.0
    ensures 0.0 <= t <= 1.0 ==> c == t
  {
    if t < 0.0 then 0.0 else if t > 1.0 then 1.0 else t
  }

  /// Mathf.Lerp, which clamps its parameter to [0, 1].
  function Lerp(a: real, b: real, t: real): real {
    a + (b - a) * Clamp01(t)
  }

  /// Lerp runs from `a` at 0 to `b` at 1 and stays between them.
  lemma LerpBetween(a: real, b: real, t: real)
    ensures Lerp(a, b, 0.0) == a && Lerp(a, b, 1.0) == b
    ensures a <= b ==> a <= Lerp(a, b, t) <= b
  {
    if a <= b {
      MixBetween(a, b, Clamp01(t));
    }
  }

  lemma MixBetween(a: real, b: real, c: real)
    requires a <= b && 0.0 <= c <= 1.0
    ensures a <= a + (b - a) * c <= b
  {
    var x := b - a;
    var y := x * c;
    UnitMul(x, c);
    assert 0.0 <= y <= x;
    assert a + (b - a) * c == a + y;
  }

  /// For `a <= b`, Lerp does not decrease as its parameter grows.
  lemma LerpMonotone(a: real, b: real, t1: real, t2: real)
    requires a <= b && t1 <= t2
    ensures Lerp(a, b, t1) <= Lerp(a, b, t2)
  {
    var x, c1, c2 := b - a, Clamp01(t1), Clamp01(t2);
    assert x * c2 - x * c1 == x * (c2 - c1);
    UnitMul(x, c2 - c1);
  }

  /// The radius test `magnitude <= bound`, stated on the squared magnitude.
  predicate WithinRadius(sqrMagnitude: real, bound: real) {
    bound >= 0.0 && sqrMagnitude <= bound * bound
  }

  /// For the true magnitude `m` (the non-negative root of the squared
  /// magnitude), the squared test is the source's test.
  lemma RadiusTestOnSquares(m: real, sqrMagnitude: real, bound: real)
    requires m >= 0.0 && m * m == sqrMagnitude
    ensures m <= bound <==> WithinRadius(sqrMagnitude, bound)
  {
    SquaredComparison(m, bound);
  }

  /// IsPointInCone: a particle of radius `particleRadius` at `q` touches the
  /// truncated cone with lids at `p1` (radius `r1`) and `p2` (radius `r2`).
  /// For a zero-length segment the slab test passes but GetProjection
  /// divides zero by zero; the NaN makes the final comparison false.
  function IsPointInCone(q: Vec3, particleRadius: real, p1: Vec3, p2: Vec3, r1: real, r2: real): (hit: bool)
    ensures hit ==> BetweenLids(q, p1, p2) && SqrMagnitude(Minus(p2, p1)) > 0.0
    ensures hit ==> 0.0 <= ProjectionScalar(Minus(q, p1), Minus(p2, p1)) <= 1.0
  {
    var axis := Minus(p2, p1);
    if BetweenLids(q, p1, p2) then
      if SqrMagnitude(axis) == 0.0 then false
      else
        var d := GetProjection(Minus(q, p1), axis);
        var t := ProjectionScalar(Minus(q, p1), axis);
        LidsAsInterval(q, p1, p2);
        WithinRadius(SqrMagnitude(d.rejection), Lerp(r1, r2, t) + particleRadius)
    else false
  }

  /// The cone parameter of the source, `t = |projection| / |axis|`, is the
  /// projection scalar: any non-negative `t` with
  /// `t * t * |axis|^2 == |projection|^2` equals it between the lids.
  lemma ConeParameterIsProjectionScalar(q: Vec3, p1: Vec3, p2: Vec3, t: real)
    requires BetweenLids(q, p1, p2) && SqrMagnitude(Minus(p2, p1)) > 0.0
    requires t >= 0.0
    requires t * t * SqrMagnitude(Minus(p2, p1)) ==
             SqrMagnitude(GetProjection(Minus(q, p1), Minus(p2, p1)).projection)
    ensures t == ProjectionScalar(Minus(q, p1), Minus(p2, p1))
  {
    var axis := Minus(p2, p1);
    var s := ProjectionScalar(Minus(q, p1), axis);
    assert s >= 0.0 by {
      LidsAsInterval(q, p1, p2);
    }
    assert GetProjection(Minus(q, p1), axis).projection == Scale(s, axis);
    ScaledRootUnique(t, s, axis);
  }

  /// The taper parameter `(len - index - 1) / (len - 1.0f)` of point `index`
  /// in a path of `len >= 2` points: 1 at the oldest point, 0 at the newest.
  function Taper(len: nat, index: nat): real
    requires len >= 2
  {
    (len - index - 1) as real / (len - 1) as real
  }

  lemma TaperBounds(len: nat, index: nat)
    requires len >= 2 && index < len
    ensures 0.0 <= Taper(len, index) <= 1.0
    ensures index == len - 1 ==> Taper(len, index) == 0.0
    ensures index == 0 ==> Taper(len, index) == 1.0
  {
    ScalarInUnitInterval((len - index - 1) as real, (len - 1) as real);
  }

  /// The taper falls strictly from one index to any later one.
  lemma TaperStrictlyDecreasing(len: nat, i: nat, j: nat)
    requires len >= 2 && i < j < len
    ensures Taper(len, j) < Taper(len, i)
  {
    var d := (len - 1) as real;
    var ti, tj := Taper(len, i), Taper(len, j);
    assert ti * d == (len - i - 1) as real;
    assert tj * d == (len - j - 1) as real;
    if tj > ti {
      MulPositive(tj - ti, d);
    }
  }

  /// The taper parameter falls as the index grows toward the newest point.
  lemma TaperDecreasing(len: nat, i: nat, j: nat)
    requires len >= 2 && i <= j < len
    ensures Taper(len, j) <= Taper(len, i)
  {
    if i < j {
      TaperStrictlyDecreasing(len, i, j);
    }
  }

  /// The cross-section radius `Mathf.Lerp(minRadius * mult, maxRadius * mult,
  /// Taper)` assigned to point `index` of a path of `len` points.
  function RadiusAt(len: nat, index: nat, cfg: FieldConfig): real
    requires len >= 2
  {
    Lerp(cfg.minRadius * cfg.radialMultiplier, cfg.maxRadius * cfg.radialMultiplier, Taper(len, index))
  }

  /// The newest point gets `minRadius * mult`, the oldest `maxRadius * mult`,
  /// and with `minRadius <= maxRadius` and a non-negative multiplier the
  /// radius does not grow toward the newest point.
  lemma RadiusProfile(len: nat, i: nat, j: nat, cfg: FieldConfig)
    requires len >= 2 && i <= j < len
    ensures RadiusAt(len, len - 1, cfg) == cfg.minRadius * cfg.radialMultiplier
    ensures RadiusAt(len, 0, cfg) == cfg.maxRadius * cfg.radialMultiplier
    ensures cfg.minRadius <= cfg.maxRadius && cfg.radialMultiplier >= 0.0 ==>
      RadiusAt(len, j, cfg) <= RadiusAt(len, i, cfg)
  {
    var lo, hi := cfg.minRadius * cfg.radialMultiplier, cfg.maxRadius * cfg.radialMultiplier;
    assert RadiusAt(len, len - 1, cfg) == lo && RadiusAt(len, 0, cfg) == hi by {
      TaperBounds(len, len - 1);
      TaperBounds(len, 0);
      LerpBetween(lo, hi, 0.0);
    }
    if cfg.minRadius <= cfg.maxRadius && cfg.radialMultiplier >= 0.0 {
      RadiusFalls(len, i, j, cfg);
    }
  }

  lemma RadiusFalls(len: nat, i: nat, j: nat, cfg: FieldConfig)
    requires len >= 2 && i <= j < len
    requires cfg.minRadius <= cfg.maxRadius && cfg.radialMultiplier >= 0.0
    ensures RadiusAt(len, j, cfg) <= RadiusAt(len, i, cfg)
  {
    var lo, hi := cfg.minRadius * cfg.radialMultiplier, cfg.maxRadius * cfg.radialMultiplier;
    ScaleOrdered(cfg.minRadius, cfg.maxRadius, cfg.radialMultiplier);
    TaperDecreasing(len, i, j);
    LerpMonotone(lo, hi, Taper(len, j), Taper(len, i));
  }

  lemma ScaleOrdered(a: real, b: real, m: real)
    requires a <= b && m >= 0.0
    ensures a * m <= b * m
  {
    var d := b - a;
    assert b * m - a * m == d * m;
    if d > 0.0 && m > 0.0 {
      MulPositive(d, m);
    }
  }

  /// The lid radii of segment j, whose lids are `pts[j - 1]` and `pts[j]`:
  /// r1 is computed from index j and r2 from index j - 1.
  function SegmentRadii(len: nat, j: nat, cfg: FieldConfig): (r: (real, real))
    requires 1 <= j < len
    ensures cfg.minRadius <= cfg.maxRadius && cfg.radialMultiplier >= 0.0 ==> r.0 <= r.1
  {
    RadiusProfile(len, j - 1, j, cfg);
    (RadiusAt(len, j, cfg), RadiusAt(len, j - 1, cfg))
  }

  /// Each segment widens toward its newer lid while the per-index radius
  /// shrinks toward the newest point, so at an interior point j the lid of
  /// segment j (radius from index j - 1) is wider than the lid of segment
  /// j + 1 (radius from index j + 1): the tube's radius jumps there.
  lemma RadiusJumpsAtInteriorPoints(len: nat, j: nat, cfg: FieldConfig)
    requires 1 <= j && j + 1 < len
    requires cfg.minRadius < cfg.maxRadius && cfg.radialMultiplier > 0.0
    ensures SegmentRadii(len, j + 1, cfg).0 < SegmentRadii(len, j, cfg).1
  {
    var lo, hi := cfg.minRadius * cfg.radialMultiplier, cfg.maxRadius * cfg.radialMultiplier;
    var t0, t1 := Taper(len, j + 1), Taper(len, j - 1);
    TaperStrictlyDecreasing(len, j - 1, j + 1);
    TaperBounds(len, j + 1);
    TaperBounds(len, j - 1);
    assert lo < hi by {
      assert hi - lo == (cfg.maxRadius - cfg.minRadius) * cfg.radialMultiplier;
      MulPositive(cfg.maxRadius - cfg.minRadius, cfg.radialMultiplier);
    }
    MulPositive(hi - lo, t1 - t0);
    assert (hi - lo) * t1 - (hi - lo) * t0 == (hi - lo) * (t1 - t0);
    assert RadiusAt(len, j + 1, cfg) == lo + (hi - lo) * t0;
    assert RadiusAt(len, j - 1, cfg) == lo + (hi - lo) * t1;
  }

  /// Segment j of the path contains the particle at `q`.
  predicate SegmentContains(pts: seq<Vec3>, q: Vec3, cfg: FieldConfig, j: nat)
    requires 1 <= j < |pts|
  {
    var r := SegmentRadii(|pts|, j, cfg);
    IsPointInCone(q, cfg.particleRadius, pts[j - 1], pts[j], r.0, r.1)
  }

  /// The info returned for a segment that contains the point: the spring
  /// force `-k * (|rejection| * .4f) * rejection.normalized`, which is
  /// `-0.4 * k * rejection`.
  function SegmentInfo(pts: seq<Vec3>, q: Vec3, cfg: FieldConfig, j: nat): (info: FieldInfo)
    requires 1 <= j < |pts| && SegmentContains(pts, q, cfg, j)
    ensures Plus(info.projection, info.rejection) == Minus(q, pts[j - 1])
    ensures Dot(info.rejection, info.axis) == 0.0
    ensures info.axis == Minus(pts[j], pts[j - 1]) && info != ZERO
    ensures SqrMagnitude(info.axis) > 0.0
    ensures info.projection == Scale(ProjectionScalar(Minus(q, pts[j - 1]), info.axis), info.axis)
  {
    var a, b := Minus(q, pts[j - 1]), Minus(pts[j], pts[j - 1]);
    var d := GetProjection(a, b);
    assert d.projection == Scale(ProjectionScalar(a, b), b);
    FieldInfo(d.projection, d.rejection, b, Scale(-SPRING_SCALE * cfg.k, d.rejection))
  }

  /// The search of CalculateForceFieldInfo from segment j down to segment 1.
  function FirstHit(pts: seq<Vec3>, q: Vec3, cfg: FieldConfig, j: nat): (info: FieldInfo)
    requires j < |pts|
    ensures info.force == Scale(-SPRING_SCALE * cfg.k, info.rejection)
    decreases j
  {
    if j == 0 then ZERO
    else if SegmentContains(pts, q, cfg, j) then SegmentInfo(pts, q, cfg, j)
    else FirstHit(pts, q, cfg, j - 1)
  }

  /// CalculateForceFieldInfo on the live points of the path.
  function ForceFieldAt(pts: seq<Vec3>, q: Vec3, cfg: FieldConfig): (info: FieldInfo)
    ensures |pts| < 2 ==> info == ZERO
  {
    if |pts| == 0 then ZERO else FirstHit(pts, q, cfg, |pts| - 1)
  }

  /// No segment among 1..j contains the point.
  ghost predicate NoHitUpTo(pts: seq<Vec3>, q: Vec3, cfg: FieldConfig, j: nat)
    requires j < |pts|
  {
    forall i :: 1 <= i <= j ==> !SegmentContains(pts, q, cfg, i)
  }

  /// Segment i contains the point and no newer segment up to j does.
  ghost predicate NewestHitUpTo(pts: seq<Vec3>, q: Vec3, cfg: FieldConfig, i: nat, j: nat)
    requires j < |pts|
  {
    1 <= i <= j && SegmentContains(pts, q, cfg, i) &&
    forall i' :: i < i' <= j ==> !SegmentContains(pts, q, cfg, i')
  }

  lemma {:induction false} FirstHitSpec(pts: seq<Vec3>, q: Vec3, cfg: FieldConfig, j: nat)
    requires j < |pts|
    ensures NoHitUpTo(pts, q, cfg, j) <==> FirstHit(pts, q, cfg, j) == ZERO
    ensures !NoHitUpTo(pts, q, cfg, j) ==>
      exists i :: NewestHitUpTo(pts, q, cfg, i, j) && FirstHit(pts, q, cfg, j) == SegmentInfo(pts, q, cfg, i)
    decreases j
  {
    if j > 0 {
      if SegmentContains(pts, q, cfg, j) {
        assert NewestHitUpTo(pts, q, cfg, j, j);
      } else {
        FirstHitSpec(pts, q, cfg, j - 1);
        if !NoHitUpTo(pts, q, cfg, j - 1) {
          var i :| NewestHitUpTo(pts, q, cfg, i, j - 1) && FirstHit(pts, q, cfg, j - 1) == SegmentInfo(pts, q, cfg, i);
          assert NewestHitUpTo(pts, q, cfg, i, j);
        }
      }
    }
  }

  /// The newest segment that contains the point wins: the query returns ZERO
  /// exactly when no segment contains the point, and otherwise the info of a
  /// containing segment i older than which no newer one contains it.
  lemma NewestSegmentWins(pts: seq<Vec3>, q: Vec3, cfg: FieldConfig)
    requires |pts| >= 1
    ensures NoHitUpTo(pts, q, cfg, |pts| - 1) <==> ForceFieldAt(pts, q, cfg) == ZERO
    ensures !NoHitUpTo(pts, q, cfg, |pts| - 1) ==>
      exists i :: NewestHitUpTo(pts, q, cfg, i, |pts| - 1) && ForceFieldAt(pts, q, cfg) == SegmentInfo(pts, q, cfg, i)
  {
    FirstHitSpec(pts, q, cfg, |pts| - 1);
  }

  /// The force is the spring force `-0.4 * k * rejection`: it points against
  /// the rejection for a non-negative k, and it is zero when the rejection
  /// is (which the particle update then reads as a miss).
  lemma ForceLaw(pts: seq<Vec3>, q: Vec3, cfg: FieldConfig)
    ensures ForceFieldAt(pts, q, cfg).force == Scale(-SPRING_SCALE * cfg.k, ForceFieldAt(pts, q, cfg).rejection)
    ensures cfg.k >= 0.0 ==> Dot(ForceFieldAt(pts, q, cfg).force, ForceFieldAt(pts, q, cfg).rejection) <= 0.0
    ensures ForceFieldAt(pts, q, cfg).rejection == ZERO_VECTOR ==> ForceFieldAt(pts, q, cfg).force == ZERO_VECTOR
  {
    var info := ForceFieldAt(pts, q, cfg);
    var c := -SPRING_SCALE * cfg.k;
    DotOfScale(c, info.rejection, info.rejection);
    ScaleOfZero(c);
    if cfg.k > 0.0 && SqrMagnitude(info.rejection) > 0.0 {
      MulPositive(-c, SqrMagnitude(info.rejection));
    }
  }
}
