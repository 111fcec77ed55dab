/// The WindStream behaviour of WindStream.cs: the 50-point history of the
/// emitter's positions, the five wind zones sampled from it, the field query
/// over that history and the per-particle update of LateUpdate.
///
/// The emitter's position, the frame time, the particle array and the swirl
/// rotation `Quaternion.AngleAxis(10, projection) * rejection` come from the
/// engine; they are parameters here.
module WindStreams {
  import opened Vectors
  import opened ForceField
  import opened ListUtilities
  import opened ModArith

  /// The capacity of the point history, `new WindowArray<Vector3>(50)`.
  const CAPACITY := 50
  /// The number of wind zones, `new GameObject[5]`.
  const ZONE_COUNT := 5
  /// A point is recorded only when it is more than this far from the newest.
  const MIN_SPACING := 0.1
  const MIN_RADIUS := 0.5
  const MAX_RADIUS := 3.0
  /// The spring constant k.
  const SPRING_CONSTANT := 30.0
  const PARTICLE_RADIUS := 0.25

  /// The part of ParticleSystem.Particle that the update reads and writes.
  datatype Particle = Particle(position: Vec3, velocity: Vec3, remainingLifetime: real)

  function MinReal(a: real, b: real): real {
    if a < b then a else b
  }

  /// UpdatePoints' test: record the position when the history is empty or
  /// the newest point is more than MIN_SPACING away (compared on squares).
  predicate ShouldAppend(pts: seq<Vec3>, position: Vec3) {
    |pts| == 0 || DistSq(pts[|pts| - 1], position) > MIN_SPACING * MIN_SPACING
  }

  /// For the true distance `m`, the squared comparison is the source's
  /// `magnitude > .1f`.
  lemma SpacingOnSquares(m: real, sqrDistance: real)
    requires m >= 0.0 && m * m == sqrDistance
    ensures m > MIN_SPACING <==> sqrDistance > MIN_SPACING * MIN_SPACING
  {
    SquaredComparison(m, MIN_SPACING);
  }

  /// Consecutive points of the history are more than MIN_SPACING apart.
  ghost predicate Spaced(pts: seq<Vec3>) {
    forall i :: 1 <= i < |pts| ==> DistSq(pts[i - 1], pts[i]) > MIN_SPACING * MIN_SPACING
  }

  /// Recording a point by UpdatePoints' rule keeps the history spaced, also
  /// when the oldest point is dropped.
  lemma AppendKeepsSpacing(pts: seq<Vec3>, position: Vec3, n: nat)
    requires Spaced(pts) && ShouldAppend(pts, position)
    ensures Spaced(LastN(pts + [position], n))
  {
    var s := pts + [position];
    SpacedAppend(pts, position);
    var r := LastN(s, n);
    SpacedSuffix(s, |s| - |r|);
    assert r == s[|s| - |r|..];
  }

  lemma SpacedAppend(pts: seq<Vec3>, position: Vec3)
    requires Spaced(pts) && ShouldAppend(pts, position)
    ensures Spaced(pts + [position])
  {
    var s := pts + [position];
    forall i | 1 <= i < |s|
      ensures DistSq(s[i - 1], s[i]) > MIN_SPACING * MIN_SPACING
    {
      if i < |pts| {
        assert s[i - 1] == pts[i - 1] && s[i] == pts[i];
      }
    }
  }

  lemma SpacedSuffix(s: seq<Vec3>, d: nat)
    requires Spaced(s) && d <= |s|
    ensures Spaced(s[d..])
  {
    var r := s[d..];
    forall i | 1 <= i < |r|
      ensures DistSq(r[i - 1], r[i]) > MIN_SPACING * MIN_SPACING
    {
      assert r[i - 1] == s[d + i - 1] && r[i] == s[d + i];
    }
  }

  /// On a spaced history no segment has zero length, so the zero-division
  /// branch of the cone test is never taken on the wind stream's own path.
  lemma SpacedSegmentsNondegenerate(pts: seq<Vec3>, j: nat)
    requires Spaced(pts) && 1 <= j < |pts|
    ensures SqrMagnitude(Minus(pts[j], pts[j - 1])) > 0.0
  {
    DistSqSymmetric(pts[j - 1], pts[j]);
  }

  /// The zone positions after UpdateWindZones: zone j takes point j * m when
  /// the history has one, and keeps its old position otherwise.
  function ZoneLayout(zones: seq<Vec3>, pts: seq<Vec3>, m: nat): (r: seq<Vec3>)
    ensures |r| == |zones|
  {
    seq(|zones|, j requires 0 <= j < |zones| => if j * m < |pts| then pts[j * m] else zones[j])
  }

  /// With the spacing `m = maxSize / zoneCount` and `maxSize` a multiple of
  /// `zoneCount`, every index of the history that UpdateWindZones samples
  /// names an existing zone.
  lemma ZoneIndexInRange(i: int, maxSize: nat, zoneCount: nat)
    requires zoneCount > 0 && maxSize >= zoneCount && maxSize % zoneCount == 0
    requires 0 <= i < maxSize
    ensures maxSize / zoneCount > 0
    ensures i / (maxSize / zoneCount) < zoneCount
  {
    var m := maxSize / zoneCount;
    assert maxSize == m * zoneCount;
    assert i < zoneCount * m;
    DivBelow(i, m, zoneCount);
  }

  /// `j * m == i` holds for exactly one j, `i / m`, when m divides i, and
  /// for none otherwise.
  lemma SampledIndex(i: int, m: int, j: int)
    requires m > 0 && i >= 0 && j >= 0
    ensures j * m == i <==> (i % m == 0 && j == i / m)
  {
    if j * m == i {
      DivModUnique(i, m, j, 0);
    }
    if i % m == 0 && j == i / m {
      assert i == (i / m) * m + i % m;
    }
  }

  /// Once the history is full, the five zones sit at points 0, 10, 20, 30
  /// and 40: evenly along the path, starting at the oldest point.
  lemma FullHistoryZones(zones: seq<Vec3>, pts: seq<Vec3>, j: int)
    requires |zones| == ZONE_COUNT && |pts| == CAPACITY && 0 <= j < ZONE_COUNT
    ensures ZoneLayout(zones, pts, CAPACITY / ZONE_COUNT)[j] == pts[10 * j]
  {
  }

  /// The first stage of LateUpdate's integration: half a frame of the
  /// force at the particle's position, applied to its velocity.
  function TrialVelocity(p: Particle, pts: seq<Vec3>, cfg: FieldConfig, deltaTime: real): Vec3 {
    Plus(p.velocity, Scale(deltaTime / 2.0, ForceFieldAt(pts, p.position, cfg).force))
  }

  /// The trial position, half a frame along the first-stage velocity.
  function TrialPosition(p: Particle, pts: seq<Vec3>, cfg: FieldConfig, deltaTime: real): Vec3 {
    Plus(p.position, Scale(deltaTime / 2.0, TrialVelocity(p, pts, cfg, deltaTime)))
  }

  /// One particle through LateUpdate: half a frame of the force at the
  /// trial position is added to the first-stage velocity. When that force
  /// is zero the particle is left as it was, the first-stage velocity
  /// included; otherwise velocity, position (moved along the axis, with its
  /// rejection swirled) and lifetime are written. The flag says whether the
  /// particle was pushed (and counted).
  function ParticleStep(p: Particle, pts: seq<Vec3>, cfg: FieldConfig, deltaTime: real,
                        swirl: (Vec3, Vec3) -> Vec3): (r: (Particle, bool))
    ensures !r.1 ==> r.0 == p
    ensures r.1 ==> r.0.remainingLifetime == p.remainingLifetime + MinReal(p.remainingLifetime + deltaTime, 1.0)
  {
    var ffi := ForceFieldAt(pts, TrialPosition(p, pts, cfg, deltaTime), cfg);
    if ffi.force != ZERO_VECTOR then
      var rotatedRejection := swirl(ffi.projection, ffi.rejection);
      var newPosition := Plus(Minus(p.position, ffi.rejection), rotatedRejection);
      (Particle(Plus(newPosition, ffi.axis),
                Plus(TrialVelocity(p, pts, cfg, deltaTime), Scale(deltaTime / 2.0, ffi.force)),
                p.remainingLifetime + MinReal(p.remainingLifetime + deltaTime, 1.0)), true)
    else (p, false)
  }

  /// A particle is pushed exactly when the force at its trial position is
  /// not zero; its new velocity is then its old one plus half a frame of
  /// each of the two sampled forces (the RK2 update), and its lifetime does
  /// not shrink for a non-negative lifetime and frame time.
  lemma PushedParticle(p: Particle, pts: seq<Vec3>, cfg: FieldConfig, deltaTime: real,
                       swirl: (Vec3, Vec3) -> Vec3)
    ensures ParticleStep(p, pts, cfg, deltaTime, swirl).1 <==>
      ForceFieldAt(pts, TrialPosition(p, pts, cfg, deltaTime), cfg).force != ZERO_VECTOR
    ensures ParticleStep(p, pts, cfg, deltaTime, swirl).1 ==>
      ParticleStep(p, pts, cfg, deltaTime, swirl).0.velocity ==
        Plus(p.velocity, Scale(deltaTime / 2.0, Plus(
          ForceFieldAt(pts, p.position, cfg).force,
          ForceFieldAt(pts, TrialPosition(p, pts, cfg, deltaTime), cfg).force)))
    ensures ParticleStep(p, pts, cfg, deltaTime, swirl).1 && p.remainingLifetime >= 0.0 && deltaTime >= 0.0 ==>
      ParticleStep(p, pts, cfg, deltaTime, swirl).0.remainingLifetime >= p.remainingLifetime
  {
    var f1 := ForceFieldAt(pts, p.position, cfg).force;
    var f2 := ForceFieldAt(pts, TrialPosition(p, pts, cfg, deltaTime), cfg).force;
    TwoHalfSteps(p.velocity, f1, f2, deltaTime / 2.0);
  }

  lemma TwoHalfSteps(v: Vec3, f1: Vec3, f2: Vec3, dt: real)
    ensures Plus(Plus(v, Scale(dt, f1)), Scale(dt, f2)) == Plus(v, Scale(dt, Plus(f1, f2)))
  {
  }

  /// A particle whose trial position has zero rejection (it sits on the
  /// axis of its segment, or lies in no segment) feels a zero force and is
  /// treated as a miss.
  lemma OnAxisIsMiss(p: Particle, pts: seq<Vec3>, cfg: FieldConfig, deltaTime: real,
                     swirl: (Vec3, Vec3) -> Vec3)
    requires ForceFieldAt(pts, TrialPosition(p, pts, cfg, deltaTime), cfg).rejection == ZERO_VECTOR
    ensures ParticleStep(p, pts, cfg, deltaTime, swirl) == (p, false)
  {
    ForceLaw(pts, TrialPosition(p, pts, cfg, deltaTime), cfg);
  }

  /// The number of step results that are marked pushed.
  function PushedCount(rs: seq<(Particle, bool)>): (n: nat)
    ensures n <= |rs|
    decreases |rs|
  {
    if rs == [] then 0 else PushedCount(rs[..|rs| - 1]) + (if rs[|rs| - 1].1 then 1 else 0)
  }

  lemma PushedCountStep(rs: seq<(Particle, bool)>, i: nat)
    requires i < |rs|
    ensures PushedCount(rs[..i + 1]) == PushedCount(rs[..i]) + (if rs[i].1 then 1 else 0)
  {
    assert rs[..i + 1][..i] == rs[..i];
  }

  /// The ParticleStep results of a sequence of particles, in order.
  lemma StepResults(ps: seq<Particle>, pts: seq<Vec3>, cfg: FieldConfig, deltaTime: real,
                    swirl: (Vec3, Vec3) -> Vec3) returns (rs: seq<(Particle, bool)>)
    ensures |rs| == |ps|
    ensures forall i :: 0 <= i < |ps| ==> rs[i] == ParticleStep(ps[i], pts, cfg, deltaTime, swirl)
  {
    rs := seq(|ps|, i requires 0 <= i < |ps| => ParticleStep(ps[i], pts, cfg, deltaTime, swirl));
  }

  /// Counting the pushed results counts the pushed particles.
  lemma {:induction false} PushedCountOfResults(ps: seq<Particle>, rs: seq<(Particle, bool)>, pts: seq<Vec3>,
                                                cfg: FieldConfig, deltaTime: real, swirl: (Vec3, Vec3) -> Vec3)
    requires |rs| == |ps|
    requires forall i :: 0 <= i < |ps| ==> rs[i] == ParticleStep(ps[i], pts, cfg, deltaTime, swirl)
    ensures PushedCount(rs) == CountPushed(ps, pts, cfg, deltaTime, swirl)
    decreases |ps|
  {
    if ps != [] {
      var k := |ps| - 1;
      PushedCountOfResults(ps[..k], rs[..k], pts, cfg, deltaTime, swirl);
    }
  }

  /// The number of particles that ParticleStep pushes.
  function CountPushed(ps: seq<Particle>, pts: seq<Vec3>, cfg: FieldConfig, deltaTime: real,
                       swirl: (Vec3, Vec3) -> Vec3): (n: nat)
    ensures n <= |ps|
    decreases |ps|
  {
    if ps == [] then 0
    else CountPushed(ps[..|ps| - 1], pts, cfg, deltaTime, swirl) +
         (if ParticleStep(ps[|ps| - 1], pts, cfg, deltaTime, swirl).1 then 1 else 0)
  }

  /// On a path of fewer than two points no force acts, so LateUpdate
  /// leaves every particle as it was and counts none.
  lemma {:induction false} ShortPathLeavesParticles(ps: seq<Particle>, pts: seq<Vec3>, cfg: FieldConfig,
                                                   deltaTime: real, swirl: (Vec3, Vec3) -> Vec3)
    requires |pts| < 2
    ensures forall i :: 0 <= i < |ps| ==> ParticleStep(ps[i], pts, cfg, deltaTime, swirl) == (ps[i], false)
    ensures CountPushed(ps, pts, cfg, deltaTime, swirl) == 0
    decreases |ps|
  {
    if ps != [] {
      ShortPathLeavesParticles(ps[..|ps| - 1], pts, cfg, deltaTime, swirl);
      forall i | 0 <= i < |ps|
        ensures ParticleStep(ps[i], pts, cfg, deltaTime, swirl) == (ps[i], false)
      {
        OnAxisIsMiss(ps[i], pts, cfg, deltaTime, swirl);
      }
    }
  }

  class WindStream {
    const points: WindowArray<Vec3>
    /// The positions of the wind zones' transforms.
    const windZones: array<Vec3>
    var speed: real
    var startSpeed: real

    ghost predicate Valid()
      reads this, points, points.arr
    {
      points.Valid() && points.size == CAPACITY &&
      windZones.Length == ZONE_COUNT &&
      startSpeed != 0.0 && speed >= startSpeed &&
      Spaced(points.Items())
    }

    /// What sampling the field needs: a well-formed history and a positive
    /// base speed (implied by Valid).
    ghost predicate FieldReady()
      reads this, points, points.arr
    {
      points.Valid() && startSpeed != 0.0
    }

    /// The field parameters, with `radialMultiplier = speed / startSpeed`.
    function Config(): (cfg: FieldConfig)
      reads this
      requires startSpeed != 0.0
      ensures startSpeed > 0.0 && speed >= startSpeed ==> cfg.radialMultiplier >= 1.0
      ensures startSpeed < 0.0 && speed >= startSpeed ==> cfg.radialMultiplier <= 1.0
    {
      MultiplierAtLeastOne(speed, startSpeed);
      FieldConfig(MIN_RADIUS, MAX_RADIUS, speed / startSpeed, PARTICLE_RADIUS, SPRING_CONSTANT)
    }

    /// Start: an empty history of 50 points and five zones; the speed at
    /// start becomes the base speed.
    constructor Start(speed: real)
      requires speed != 0.0
      ensures Valid() && fresh(points) && fresh(points.arr) && fresh(windZones)
      ensures this.speed == speed && startSpeed == speed
      ensures points.Items() == [] && points.Added == []
    {
      points := new WindowArray<Vec3>(CAPACITY);
      windZones := new Vec3[ZONE_COUNT];
      this.speed := speed;
      startSpeed := speed;
    }

    /// UpdatePoints: record the emitter's position if it has moved far
    /// enough from the newest point.
    method UpdatePoints(position: Vec3)
      requires Valid()
      modifies points, points.arr
      ensures Valid()
      ensures ShouldAppend(old(points.Items()), position) ==>
        points.Items() == LastN(old(points.Items()) + [position], CAPACITY) &&
        points.Added == old(points.Added) + [position]
      ensures !ShouldAppend(old(points.Items()), position) ==>
        points.Added == old(points.Added) && points.windowIndex == old(points.windowIndex) &&
        points.arr[..] == old(points.arr[..])
      ensures old(points.Length()) <= points.Length() <= old(points.Length()) + 1
    {
      var n := points.Length();
      var append := n == 0;
      if !append {
        var last := points.Get(n - 1);
        append := DistSq(last, position) > MIN_SPACING * MIN_SPACING;
      }
      if append {
        AppendKeepsSpacing(points.Items(), position, CAPACITY);
        points.Add(position);
      }
    }

    /// UpdateWindZones: every tenth point of the history, from the oldest,
    /// becomes a zone position.
    method UpdateWindZones()
      requires Valid()
      modifies windZones
      ensures windZones[..] == ZoneLayout(old(windZones[..]), points.Items(), CAPACITY / ZONE_COUNT)
    {
      var m := points.MaxSize() / windZones.Length;
      assert m == 10;
      ghost var pts := points.Items();
      for i := 0 to points.Length()
        invariant forall j :: 0 <= j < ZONE_COUNT ==>
          windZones[j] == (if j * m < i then pts[j * m] else old(windZones[j]))
      {
        if i % m == 0 {
          var j := i / m;
          ZoneIndexInRange(i, CAPACITY, ZONE_COUNT);
          var x := points.Get(i);
          windZones[j] := x;
        }
        forall j' | 0 <= j' < ZONE_COUNT
          ensures windZones[j'] == (if j' * m < i + 1 then pts[j' * m] else old(windZones[j']))
        {
          SampledIndex(i, m, j');
        }
      }
    }

    /// CalculateForceFieldInfo: the segments of the history are tried from
    /// the newest to the oldest and the first one containing the point
    /// answers.
    method CalculateForceFieldInfo(particlePosition: Vec3) returns (info: FieldInfo)
      requires FieldReady()
      ensures info == ForceFieldAt(points.Items(), particlePosition, Config())
    {
      ghost var pts, cfg := points.Items(), Config();
      var n := points.Length();
      var j := (n as int) - 1;
      while j > 0
        invariant -1 <= j < n
        invariant n == |pts| && (n == 0 <==> j == -1)
        invariant j >= 0 ==> ForceFieldAt(pts, particlePosition, cfg) == FirstHit(pts, particlePosition, cfg, j)
        decreases j
      {
        var hit, segmentInfo := TrySegment(particlePosition, j);
        if hit {
          return segmentInfo;
        }
        j := j - 1;
      }
      return ZERO;
    }

    /// The body of CalculateForceFieldInfo's loop: the cone test of segment
    /// j, whose lids are points j - 1 and j, and its info on a hit.
    method TrySegment(particlePosition: Vec3, j: nat) returns (hit: bool, info: FieldInfo)
      requires FieldReady() && 1 <= j < points.Length()
      ensures hit == SegmentContains(points.Items(), particlePosition, Config(), j)
      ensures hit ==> info == SegmentInfo(points.Items(), particlePosition, Config(), j)
    {
      ghost var pts, cfg := points.Items(), Config();
      var radialMultiplier := speed / startSpeed;
      var n := points.Length();
      var k0, k1 := j - 1, j;
      var p1 := points.Get(k0);
      var p2 := points.Get(k1);
      var r1 := Lerp(MIN_RADIUS * radialMultiplier, MAX_RADIUS * radialMultiplier, Taper(n, k1));
      var r2 := Lerp(MIN_RADIUS * radialMultiplier, MAX_RADIUS * radialMultiplier, Taper(n, k0));
      assert p1 == pts[j - 1] && p2 == pts[j];
      assert (r1, r2) == SegmentRadii(n, j, cfg);
      hit := IsPointInCone(particlePosition, PARTICLE_RADIUS, p1, p2, r1, r2);
      info := ZERO;
      if hit {
        var a := Minus(particlePosition, p1);
        var b := Minus(p2, p1);
        var projectionData := GetProjection(a, b);
        var rejection := projectionData.rejection;
        var force := Scale(-SPRING_SCALE * SPRING_CONSTANT, rejection);
        info := FieldInfo(projectionData.projection, rejection, b, force);
      }
    }

    /// The body of LateUpdate's loop for one particle: the new particle and
    /// whether it is written back (pushed).
    method UpdateParticle(p: Particle, deltaTime: real, swirl: (Vec3, Vec3) -> Vec3,
                          ghost pts: seq<Vec3>, ghost cfg: FieldConfig)
      returns (updated: Particle, pushed: bool)
      requires FieldReady() && pts == points.Items() && cfg == Config()
      ensures (updated, pushed) == ParticleStep(p, pts, cfg, deltaTime, swirl)
    {
      var q := p.position;
      var v := p.velocity;
      var dt := deltaTime / 2.0;
      var fieldAtStart := CalculateForceFieldInfo(q);
      v := Plus(v, Scale(dt, fieldAtStart.force));
      q := Plus(q, Scale(dt, v));
      assert v == TrialVelocity(p, pts, cfg, deltaTime) && q == TrialPosition(p, pts, cfg, deltaTime);
      var ffi := CalculateForceFieldInfo(q);
      updated, pushed := p, false;
      if ffi.force != ZERO_VECTOR {
        v := Plus(v, Scale(dt, ffi.force));
        var rotatedRejection := swirl(ffi.projection, ffi.rejection);
        var newPosition := Plus(Minus(p.position, ffi.rejection), rotatedRejection);
        updated := Particle(Plus(newPosition, ffi.axis), v,
                            p.remainingLifetime + MinReal(p.remainingLifetime + deltaTime, 1.0));
        pushed := true;
      }
    }

    /// One iteration of LateUpdate's loop: particle i is stepped and written
    /// back only when pushed.
    method ApplyParticleStep(particles: array<Particle>, i: nat, deltaTime: real,
                             swirl: (Vec3, Vec3) -> Vec3, ghost pts: seq<Vec3>, ghost cfg: FieldConfig)
      returns (pushed: bool)
      requires FieldReady() && pts == points.Items() && cfg == Config() && i < particles.Length
      modifies particles
      ensures (particles[i], pushed) == ParticleStep(old(particles[i]), pts, cfg, deltaTime, swirl)
      ensures forall j :: 0 <= j < particles.Length && j != i ==> particles[j] == old(particles[j])
    {
      var updated;
      updated, pushed := UpdateParticle(particles[i], deltaTime, swirl, pts, cfg);
      if pushed {
        particles[i] := updated;
      }
    }

    /// LateUpdate: every particle among the first `particleCount` goes
    /// through ParticleStep and is written back only when pushed; the rest
    /// of the array is untouched; the result is the number pushed.
    method LateUpdate(particles: array<Particle>, particleCount: nat, deltaTime: real,
                      swirl: (Vec3, Vec3) -> Vec3) returns (count: nat)
      requires FieldReady() && particleCount <= particles.Length
      modifies particles
      ensures forall i :: 0 <= i < particleCount ==>
        particles[i] == ParticleStep(old(particles[i]), points.Items(), Config(), deltaTime, swirl).0
      ensures forall i :: particleCount <= i < particles.Length ==> particles[i] == old(particles[i])
      ensures count == CountPushed(old(particles[..particleCount]), points.Items(), Config(), deltaTime, swirl)
    {
      ghost var pts, cfg := points.Items(), Config();
      ghost var initial := particles[..];
      ghost var rs := StepResults(initial[..particleCount], pts, cfg, deltaTime, swirl);
      count := 0;
      for i := 0 to particleCount
        invariant forall j :: 0 <= j < i ==> particles[j] == rs[j].0
        invariant forall j :: i <= j < particles.Length ==> particles[j] == initial[j]
        invariant count == PushedCount(rs[..i])
      {
        var pushed := ApplyParticleStep(particles, i, deltaTime, swirl, pts, cfg);
        PushedCountStep(rs, i);
        if pushed {
          count := count + 1;
        }
      }
      assert rs[..particleCount] == rs;
      assert initial[..particleCount] == old(particles[..particleCount]);
      PushedCountOfResults(initial[..particleCount], rs, pts, cfg, deltaTime, swirl);
    }
  }

  lemma MultiplierAtLeastOne(speed: real, startSpeed: real)
    requires startSpeed != 0.0
    ensures startSpeed > 0.0 && speed >= startSpeed ==> speed / startSpeed >= 1.0
    ensures startSpeed < 0.0 && speed >= startSpeed ==> speed / startSpeed <= 1.0
  {
    if speed >= startSpeed {
      var r := speed / startSpeed;
      assert r * startSpeed == speed;
      if startSpeed > 0.0 && r < 1.0 {
        MulPositive(1.0 - r, startSpeed);
      } else if startSpeed < 0.0 && r > 1.0 {
        MulPositive(r - 1.0, -startSpeed);
      }
    }
  }
}
