# WindStream and WindowArray in Dafny

This project models the core of a Unity wind-stream effect. An emitter moves
through the scene and records its recent positions in a fixed-capacity
history. The history is a `WindowArray<Vector3>` of 50 points. The path
through those points is a chain of truncated cones. Every frame, each leaf
particle that lies inside one of the cones is pulled toward the cone's axis
by a spring force and carried along the path.

The model has five files, one module each:

- `list_utilities.dfy` (`ListUtilities`) models the window buffer
  `WindowArray<T>` as a class with the source's backing array and Add
  counter. It also holds pure functions for the buffer's logical view:
  one Add (`AddStep`) and a series of Adds (`AfterAdds`).
- `force_field.dfy` (`ForceField`) covers the geometry of the field query.
  It has the projection/rejection split, the truncated-cone test, the radius
  taper and the newest-first segment search. All of it is over exact reals.
- `wind_stream.dfy` (`WindStreams`) models the `WindStream` behaviour as a
  class. It covers recording points, placing wind zones, the field query as
  a loop, and the per-particle update of `LateUpdate`.
- `vectors.dfy` (`Vectors`) models `Vector3` over `real`, with helper facts
  about real arithmetic.
- `mod_arith.dfy` (`ModArith`) holds helper facts about Euclidean `/` and `%`.

The buffer's abstract value is `Contents()`, meaning `this[0] .. this[size-1]`
as the indexer reads them. `Items()` is the first `Length` of those, the ones
that Add has written. C#'s `%` truncates toward zero. It is modelled as
`CsRem`, and `SlotIsEuclidean` shows that the indexer's expression
`(windowIndex + i % size + size) % size` is the Euclidean remainder of the
rotated index.

The model takes no square roots. The source uses `magnitude` at lines 117,
150, 216 and 220 of WindStream.cs, and the model replaces each use with
something equivalent:

- The spacing test `magnitude > .1f` and the radius test
  `rejection.magnitude <= r + particleRadius` are compared on squares.
  `SpacingOnSquares` and `RadiusTestOnSquares` show that this matches the
  source's comparisons.
- The cone parameter `t = |projection| / |axis|` is replaced by the
  projection scalar `Dot(a, b) / |b|^2`. `ConeParameterIsProjectionScalar`
  shows that the two are equal between the lids.
- The force `-k * (rejection.magnitude * .4f) * rejection.normalized` at
  line 150 is written as `-0.4·k·rejection`. The magnitude times the unit
  vector is the rejection itself, and Unity's `normalized` of the zero vector
  is zero (`SegmentInfo`, `ForceLaw`).

The engine supplies four inputs, which enter as parameters: the emitter's
position, the frame time, the particle array with its live count, and the
swirl rotation `Quaternion.AngleAxis(10, projection) * rejection`.

Four consequences of the code as written:

- The taper `(Length - k - 1) / (Length - 1)` gives index Length-1, the
  newest point, the radius `minRadius·mult` and index 0, the oldest point,
  `maxRadius·mult` (`RadiusProfile`).
- In segment j (lines 140-144) the lids are `points[j-1]` and `points[j]`.
  The lid radius `r1` at `points[j-1]` is computed from index j, and the lid
  radius `r2` at `points[j]` from index j - 1 (`SegmentRadii`). So the lid at
  the newest point gets the radius of index Length-2, and `minRadius·mult`
  is used at the lid `points[Length-2]`. Each segment widens toward its newer
  lid while the per-index radius shrinks toward the emitter, so the tube's
  radius jumps at every interior point (`RadiusJumpsAtInteriorPoints`).
- When the force at the trial position is zero, the particle keeps its
  stored velocity, position and lifetime; the first-stage velocity is not
  written back (`ParticleStep`).
- A segment of zero length is not skipped explicitly. The source's `0/0`
  makes the radius comparison false, so such a segment never contains a
  point. On the wind stream's own history it cannot occur
  (`SpacedSegmentsNondegenerate`).

The returned record `WindStreamForceFieldInfo` (WindStream.cs lines 14-40)
is the datatype `ForceField.FieldInfo`, with its four read-only properties
as fields, and its sentinel `ZERO` (line 15) is the constant `ForceField.ZERO`
with four zero vectors.

## Model

| member | source | states |
|---|---|---|
| ListUtilities.SlotIsEuclidean | Assets/Scripts/ListUtilities.cs:54-62 | The indexer's slot for logical index i, computed with C#'s truncated `%`, is `(offset + i) mod size`. The offset is 0 before the first wrap and the Add count after it. |
| ListUtilities.CsRem | Assets/Scripts/ListUtilities.cs:55 | C#'s `i % size`: the result lies strictly between -size and size and has the sign of the dividend. `CsRemCongruent` adds that it differs from i by a multiple of size. |
| ListUtilities.Slot | Assets/Scripts/ListUtilities.cs:55-60 | The slot expression of the getter (and, identically, of the setter at lines 64-69), with both branches on `windowIndex < size`. The slot is always a valid index below size; SlotIsEuclidean, SlotInjective and SlotBeforeWrap describe which slot it is. |
| ListUtilities.View | Assets/Scripts/ListUtilities.cs:53-62 | The definition of the indexer's read at every index 0..size-1, which is `Contents()`. Its own contract fixes its length at size; ReadMatchesView, WriteMatchesView, AddMatchesView and WindowArray.Get describe it. |
| ListUtilities.MinNat | Assets/Scripts/ListUtilities.cs:74 | The definition of `Mathf.Min` on the Add counter and the size. It has no contract of its own; WindowArray.Length states what it gives. |
| ListUtilities.SlotBeforeWrap | Assets/Scripts/ListUtilities.cs:55-57 | Up to and including the first wrap, logical index j is backing slot j. |
| ListUtilities.SlotInjective | Assets/Scripts/ListUtilities.cs:54-62 | Distinct logical indices in [0, size) reach distinct slots, so the indexer is a permutation of the backing array. |
| ListUtilities.AddStep | Assets/Scripts/ListUtilities.cs:6-12 | Before the buffer is full, an Add puts the item at the next free index and changes nothing else. On a full buffer, new `this[i]` is old `this[i+1]` for i < size-1, and new `this[size-1]` is the item. |
| ListUtilities.ReadMatchesView | Assets/Scripts/ListUtilities.cs:54-62 | Reading the slot the getter computes yields `Contents()[i mod size]`, for every int i, negative ones included. |
| ListUtilities.WriteMatchesView | Assets/Scripts/ListUtilities.cs:63-71 | Writing the slot the setter computes changes `Contents()` at `i mod size` and nowhere else. |
| ListUtilities.AddMatchesView | Assets/Scripts/ListUtilities.cs:29-33 | Add's write to slot `windowIndex % size` followed by the increment has exactly the logical effect AddStep. |
| ListUtilities.LiveAfterAdd | Assets/Scripts/ListUtilities.cs:29-33 | After one Add, the live items are the old live items plus the new item, keeping only the newest `size`. |
| ListUtilities.LiveAfterAdds | Assets/Scripts/ListUtilities.cs:6-12 | From any state, after a series of Adds the live items are the newest `size` of the old live items followed by everything added, in order. |
| ListUtilities.FreshPrefix | Assets/Scripts/ListUtilities.cs:55-57 | On a fresh buffer, up to `size` Adds fill indices 0.. in insertion order. The remaining slots keep their initial contents. |
| ListUtilities.FreshWindowOrder | Assets/Scripts/ListUtilities.cs:6-12 | With n < size Adds, `this[i]` is the i-th item added for i < n, and the initial contents for i >= n. With n >= size Adds, `this[i]` is item n - size + i: index 0 is the oldest retained item and index size-1 the newest. |
| ListUtilities.GetLastAfterAdds | Assets/Scripts/ListUtilities.cs:35-41 | GetLast's index size-1 holds the newest item once at least `size` items were added. Before that it holds the unwritten initial contents of the last slot. |
| ListUtilities.WindowArray.constructor | Assets/Scripts/ListUtilities.cs:19-23 | Creates a fresh array of the given capacity, with no items and an Add count of 0. |
| ListUtilities.WindowArray.FromArray | Assets/Scripts/ListUtilities.cs:24-27 | Adopts (aliases) the caller's array: `Contents()` is the array's contents in order, and there are no live items. |
| ListUtilities.WindowArray.Length | Assets/Scripts/ListUtilities.cs:73-75 | Length is min(number of Adds, size). It never exceeds the capacity and equals it after `size` or more Adds. |
| ListUtilities.WindowArray.MaxSize | Assets/Scripts/ListUtilities.cs:77-79 | MaxSize is the positive capacity, the length of `Contents()` and of the backing array. |
| ListUtilities.WindowArray.Add | Assets/Scripts/ListUtilities.cs:29-33 | Records the item in the history. The view changes by AddStep, and the live items become the newest `size` of the old ones plus the item. |
| ListUtilities.WindowArray.GetLast | Assets/Scripts/ListUtilities.cs:39-41 | Returns `this[size-1]`, which is the newest live item once the buffer has wrapped. |
| ListUtilities.WindowArray.ToList | Assets/Scripts/ListUtilities.cs:46-52 | Returns exactly `size` elements, `this[0] .. this[size-1]` in order. |
| ListUtilities.WindowArray.Get | Assets/Scripts/ListUtilities.cs:54-62 | Returns `Contents()[i mod size]` for every int i. For 0 <= i < Length this is the i-th live item. |
| ListUtilities.WindowArray.Set | Assets/Scripts/ListUtilities.cs:63-71 | Afterwards the view holds the value at `i mod size` and is unchanged everywhere else. Together with Get, `this[i] = v` makes `this[i] == v`. |
| ListUtilities.WindowArray.Fill | Assets/Scripts/ListUtilities.cs:81-85 | After `size` Adds of the item, Length is size and every `this[i]` is the item. The history grows by `size` copies. |
| ForceField.GetProjection | Assets/Scripts/WindStream.cs:260-272 | For a non-zero b, projection + rejection == a, the projection is a scalar multiple of b, and the rejection is perpendicular to b. |
| ForceField.ProjectionScalar | Assets/Scripts/WindStream.cs:269 | The definition of the coefficient `Vector3.Dot(a, b) / b.sqrMagnitude`. It has no contract of its own; GetProjection, ProjectionIsUnique, LidsAsInterval and ConeParameterIsProjectionScalar state its properties. |
| ForceField.ProjectionIsUnique | Assets/Scripts/WindStream.cs:268-272 | Any multiple of b plus a vector perpendicular to b that adds up to a is GetProjection's decomposition. |
| ForceField.LidsAsInterval | Assets/Scripts/WindStream.cs:209-211 | The two plane tests hold iff 0 <= dot(q-p1, axis) <= dot(axis, axis). For a non-zero axis, this is iff the projection scalar lies in [0, 1]. |
| ForceField.BetweenLids | Assets/Scripts/WindStream.cs:211 | The definition of the two plane tests `Dot(q - p1, axis) >= 0` and `Dot(q - p2, axis) <= 0`. It has no contract of its own; LidsAsInterval and IsPointInCone describe it. |
| ForceField.Clamp01 | Assets/Scripts/WindStream.cs:217 | Mathf.Clamp01, as used inside Mathf.Lerp: the result lies in [0, 1] and equals t when t is already in [0, 1]. |
| ForceField.Lerp | Assets/Scripts/WindStream.cs:143-144 | The definition of Mathf.Lerp, `a + (b - a)·Clamp01(t)`, used at lines 143-144 and 217. It has no contract of its own; LerpBetween and LerpMonotone state its properties. |
| ForceField.LerpBetween | Assets/Scripts/WindStream.cs:143-144 | Mathf.Lerp gives a at 0 and b at 1, and stays within [a, b] for a <= b. |
| ForceField.LerpMonotone | Assets/Scripts/WindStream.cs:217 | For a <= b, Mathf.Lerp does not decrease in its parameter. |
| ForceField.RadiusTestOnSquares | Assets/Scripts/WindStream.cs:220 | For the true magnitude m, `m <= r + particleRadius` holds exactly when the squared test does. |
| ForceField.WithinRadius | Assets/Scripts/WindStream.cs:220 | The definition of the radius test `rejection.magnitude <= r + particleRadius`, stated on the squared magnitude. It has no contract of its own; RadiusTestOnSquares shows it matches the source's test. |
| ForceField.IsPointInCone | Assets/Scripts/WindStream.cs:208-223 | A hit implies the point is between the lids of a segment of non-zero length, with its projection scalar in [0, 1]. |
| ForceField.ConeParameterIsProjectionScalar | Assets/Scripts/WindStream.cs:214-217 | Between the lids, the source's `t = projection.magnitude / axis.magnitude` is the projection scalar. |
| ForceField.TaperBounds | Assets/Scripts/WindStream.cs:143-144 | For 0 <= k < Length the taper lies in [0, 1]. It is 0 at the newest point and 1 at the oldest. |
| ForceField.Taper | Assets/Scripts/WindStream.cs:143-144 | The definition of the Lerp parameter `(Length - k - 1) / (Length - 1.0f)`. It has no contract of its own; TaperBounds, TaperDecreasing and TaperStrictlyDecreasing state its properties. |
| ForceField.TaperDecreasing | Assets/Scripts/WindStream.cs:143-144 | The taper does not increase as the index moves toward the newest point. |
| ForceField.TaperStrictlyDecreasing | Assets/Scripts/WindStream.cs:143-144 | For indices i < j the taper at j is strictly below the taper at i. |
| ForceField.RadiusAt | Assets/Scripts/WindStream.cs:143-144 | The definition of the radius assigned to index k, `Lerp(minRadius·mult, maxRadius·mult, Taper(k))`. It has no contract of its own; RadiusProfile and RadiusJumpsAtInteriorPoints state its properties. |
| ForceField.RadiusProfile | Assets/Scripts/WindStream.cs:143-144 | Index Length-1 gets minRadius·mult and index 0 maxRadius·mult. For minRadius <= maxRadius and mult >= 0, the per-index radius does not grow toward the newest point. Because of the lid assignment (SegmentRadii), minRadius·mult is used at the lid points[Length-2], not at the newest point. |
| ForceField.SegmentRadii | Assets/Scripts/WindStream.cs:140-144 | With minRadius <= maxRadius and mult >= 0, every segment has r1 <= r2. |
| ForceField.RadiusJumpsAtInteriorPoints | Assets/Scripts/WindStream.cs:140-144 | With minRadius < maxRadius and mult > 0, at every interior point j the lid radius r2 of segment j is strictly larger than the lid radius r1 of segment j + 1, so the tube is not continuous there. |
| ForceField.SegmentContains | Assets/Scripts/WindStream.cs:145 | The definition of the test of segment j: IsPointInCone on lids `points[j-1]`, `points[j]` with the SegmentRadii radii. It has no contract of its own; IsPointInCone's contract and FirstHitSpec describe it. |
| ForceField.SegmentInfo | Assets/Scripts/WindStream.cs:146-151 | The info of a containing segment splits q - p1 into parts that add up to it, the projection being ProjectionScalar(q - p1, axis) times the axis and the rejection perpendicular to the axis. Its axis is the non-zero p2 - p1, and it is never the ZERO sentinel. |
| ForceField.FirstHit | Assets/Scripts/WindStream.cs:139-154 | The search's result always carries the force -0.4·k·rejection, the ZERO sentinel included. |
| ForceField.ForceFieldAt | Assets/Scripts/WindStream.cs:137-155 | With fewer than two points there are no segments, and the query returns ZERO. |
| ForceField.FirstHitSpec | Assets/Scripts/WindStream.cs:139-154 | Searching segments j down to 1 gives ZERO iff none of them contains the point. Otherwise it gives the info of a containing segment i, and no segment newer than i (up to j) contains the point. |
| ForceField.NewestSegmentWins | Assets/Scripts/WindStream.cs:137-155 | The query returns ZERO exactly when no segment contains the point. Otherwise it returns the info of the newest segment that contains it. |
| ForceField.ForceLaw | Assets/Scripts/WindStream.cs:150 | The force is -0.4·k·rejection. For k >= 0 it points against the rejection, and it is zero when the rejection is. |
| WindStreams.SpacingOnSquares | Assets/Scripts/WindStream.cs:117 | For the true distance m, `m > .1` holds exactly when the squared distance exceeds 0.01. |
| WindStreams.ShouldAppend | Assets/Scripts/WindStream.cs:116-117 | The definition of UpdatePoints' test: the history is empty, or the newest point is more than 0.1 away, on squares. It has no contract of its own; SpacingOnSquares, AppendKeepsSpacing and UpdatePoints describe it. |
| WindStreams.AppendKeepsSpacing | Assets/Scripts/WindStream.cs:115-120 | Recording a point by UpdatePoints' rule keeps every pair of consecutive history points more than 0.1 apart, also when the oldest point drops out. |
| WindStreams.SpacedSegmentsNondegenerate | Assets/Scripts/WindStream.cs:209-216 | On a spaced history every segment axis is non-zero, so the cone test never divides by zero there. |
| WindStreams.ZoneIndexInRange | Assets/Scripts/WindStream.cs:122-130 | With M = MaxSize / zoneCount and MaxSize a multiple of zoneCount, M > 0 and every sampled zone index i / M is below zoneCount. |
| WindStreams.SampledIndex | Assets/Scripts/WindStream.cs:125-126 | Point i is written to zone j exactly when j·M == i: i is a multiple of M and j == i / M. |
| WindStreams.FullHistoryZones | Assets/Scripts/WindStream.cs:122-130 | With a full 50-point history, zone j sits at point 10·j. |
| WindStreams.ParticleStep | Assets/Scripts/WindStream.cs:85-106 | A particle that is not pushed is left exactly as it was. A pushed one gets its lifetime increased by min(lifetime + dt, 1). |
| WindStreams.MinReal | Assets/Scripts/WindStream.cs:104 | The definition of `Mathf.Min` in the lifetime update. It has no contract of its own; ParticleStep and PushedParticle state the lifetime it yields. |
| WindStreams.TrialVelocity | Assets/Scripts/WindStream.cs:89-93 | The definition of the first RK2 stage, `v + F(q)·dt/2`. It has no contract of its own; PushedParticle and TwoHalfSteps state what it contributes. |
| WindStreams.TrialPosition | Assets/Scripts/WindStream.cs:89-94 | The definition of the trial position, `q + v'·dt/2` with the first-stage velocity v'. It has no contract of its own; PushedParticle and OnAxisIsMiss state what depends on it. |
| WindStreams.PushedParticle | Assets/Scripts/WindStream.cs:89-104 | A particle is pushed iff the force at its trial position is non-zero. Its new velocity is then v + dt/2·(F(q) + F(trial)), and its lifetime does not shrink. |
| WindStreams.OnAxisIsMiss | Assets/Scripts/WindStream.cs:96-97 | A trial position with zero rejection (on the axis, or in no segment) is a miss, and the particle is unchanged. |
| WindStreams.CountPushed | Assets/Scripts/WindStream.cs:84-105 | The number of pushed particles never exceeds the number of particles. |
| WindStreams.ShortPathLeavesParticles | Assets/Scripts/WindStream.cs:85-106 | With fewer than two history points, no particle is pushed or changed, and the count is 0. |
| WindStreams.MultiplierAtLeastOne | Assets/Scripts/WindStream.cs:138 | For a non-zero startSpeed and speed >= startSpeed, the radial multiplier speed / startSpeed is at least 1 when startSpeed > 0 and at most 1 when startSpeed < 0. |
| WindStreams.WindStream.Config | Assets/Scripts/WindStream.cs:138 | The field parameters the query uses, for any non-zero startSpeed. While speed >= startSpeed, the radial multiplier is at least 1 for a positive startSpeed and at most 1 for a negative one. |
| WindStreams.WindStream.Start | Assets/Scripts/WindStream.cs:60-64 | For any non-zero Inspector speed, negative ones included, creates an empty 50-point history and five zones, and records the starting speed as the base speed. |
| WindStreams.WindStream.UpdatePoints | Assets/Scripts/WindStream.cs:115-120 | Adds the position iff the history is empty or the newest point is more than 0.1 away. Otherwise the buffer is untouched. Length grows by at most 1, and the history stays spaced. |
| WindStreams.WindStream.UpdateWindZones | Assets/Scripts/WindStream.cs:122-130 | Zone j takes point 10·j when the history has it and keeps its position otherwise. |
| WindStreams.WindStream.CalculateForceFieldInfo | Assets/Scripts/WindStream.cs:137-155 | The loop from `Length-1` down to 1 with early return computes ForceFieldAt on the live points. By NewestSegmentWins, that is the newest containing segment's info, or ZERO. |
| WindStreams.WindStream.TrySegment | Assets/Scripts/WindStream.cs:140-152 | One pass of the segment loop. The cone test of segment j, with lid radii from the tapered Lerp, is SegmentContains. On a hit the info returned is SegmentInfo. |
| WindStreams.WindStream.ApplyParticleStep | Assets/Scripts/WindStream.cs:88-106 | One pass of LateUpdate's loop. Particle i becomes its ParticleStep, so it is unchanged when not pushed, and the pushed flag is ParticleStep's. No other particle changes. |
| WindStreams.WindStream.UpdateParticle | Assets/Scripts/WindStream.cs:89-106 | The body of LateUpdate's loop for one particle computes ParticleStep. |
| WindStreams.WindStream.LateUpdate | Assets/Scripts/WindStream.cs:80-113 | Each of the first particleCount particles becomes its ParticleStep, and is written back only when pushed. Later particles are untouched. The result is CountPushed. |

## Left out

- Unity plumbing is not modelled: `InitializeParticleSystem`, `GetParticles`/`SetParticles`, `Instantiate`, `GetComponentInChildren` and the transform parenting. These are engine calls with no stated behaviour. The particle array and its live count, the emitter's position and the frame time are parameters.
- `Debug.Log(count)` is left out; `LateUpdate` returns the count instead.
- `Update`'s ordering is not modelled as a method of its own. Its input and camera steps are out of scope, and its other two steps are the methods `UpdateWindZones` and `UpdatePoints`.
- `UpdateInput` and `UpdateCamera` are left out: they are keyboard-driven rotation, translation and camera placement. The model keeps only their effect on the speed rule at line 192, `speed >= startSpeed`, as part of the class invariant.
- `DrawPath` and `DrawCircle` are left out: they are debug drawing only.
- Floating point is not modelled. All arithmetic is on exact reals, so float rounding, `magnitude`, `normalized` and square roots are absent; the comparisons are made on squares, as described above.
- The swirl `Quaternion.AngleAxis(10, projection) * rejection` is a rotation from the engine. It is the parameter `swirl`, and nothing is assumed about it.
- Unity's `Vector3 !=` compares within a small tolerance; the model compares exactly.
- ListUtilities.WindowArray.constructor: the new backing array's contents are left unspecified, whereas C#'s `new T[size]` fills it with `default(T)` (`Vector3.zero` for the path). Every lemma about the buffer holds for any initial contents, so `GetLast` before the first wrap returns that unspecified element rather than `default(T)`.
- WindStreams.WindStream.Start: a speed of exactly 0 is excluded (and the class invariant asks for `startSpeed != 0`), because the source then divides by zero in `speed / startSpeed` (line 138) and in UpdateCamera's `-5 / startSpeed`, which on floats yields infinities or NaN radii that exact reals cannot express. Every other speed, negative ones included, is modelled.
- Unity's `normalized` returns the zero vector for very short vectors. The model uses the exact identity `|r|·0.4·normalized(r) = 0.4·r`.
- ForceField.GetProjection: requires a non-zero `b`. For `b = 0` the source divides zero by zero, a NaN that reals cannot represent. The only caller that can see a zero axis, `IsPointInCone`, models that path explicitly as a miss.
- ListUtilities.WindowArray.constructor: requires `size > 0`. With size 0, the source's `%` would throw a division-by-zero exception.
- ListUtilities.WindowArray.FromArray: requires a non-empty array, for the same reason.
- `windowIndex` is a 32-bit `int` in the source and overflows after 2^31 Adds. The model's counter is an unbounded `nat`.
- The wind zones are modelled by their positions only; they are `GameObject`s in the source.
- `ToList` returns a sequence rather than a `List<T>`.
- Assets/WindStream.cs, the older collider-based variant, is not part of this model.
- Assets/Controller.cs, Assets/Scripts/Controller.cs and Assets/Scripts/TreeSpawner.cs are not part of this model. They do random scene placement and have nothing to state.
