# Procedural spikes: the mesh-buffer builder

This Dafny project models the `Spike` component of *procedural-spikes*. The component builds a
mesh of spikes (triangular pyramids) arranged in rings around a polar origin. It does so by
appending to two parallel lists:

- `vertices`: the corner points;
- `triangles`: one index per vertex.

The model is the class `Spikes.Spike` (`spike.dfy`). Its two lists are `seq` fields that the
methods reassign:

- `SetVertex` appends the current vertex count to `triangles`, then the vertex to `vertices`.
- `SetTriangle(a, b, c)` appends `c, b, a`.
- `SetPyramid` appends four triangles, 12 vertices in all.
- `GeneratePyramid` draws the two outer corners and the apex offset, then calls `SetPyramid`.
- `GenerateMesh` runs the nested loop over the rings.

The proofs show the following:

- The lists grow in lockstep, and entry `k` of `triangles` is `k`.
- Nothing already appended changes.
- Each operation appends exactly the documented vertices.
- For `count < 2^30`, the outer loop visits exactly the powers of two up to `count`, and ring `i` holds `i` pyramids.
- The mesh has `12 * (2^(k+1) - 1)` vertices, where `2^k` is the largest power of two at most `count`.
- Vertex `12k + m` is corner `m` of the pyramid of ring `RingOf(k + 1)`, built from the draws
  `6k` to `6k + 5` of the loop.
- Each pyramid lies on the radii and within the azimuth ranges the code asks for.

## Main design choices

**The doubling loop.** The source's loop doubles the ring counter (`i += i`). The doc comment on
`count` says instead that each ring has one spike more than the previous one. The model follows
the loop: ring `i` has `i` pyramids, and the rings are 1, 2, 4, and so on.

**Distances from the pole.** The doc comment on `GeneratePyramid` (Spike.cs:111-112)
describes `radius` as the distance between the inner vertex and the other two. The code does
something else (Spike.cs:116-117 through PolarSystem.cs:49-52): it places B and C at `radius` from
the pole of the polar system. The inner vertex of ring `i` lies `radiusStep * (i - 1)` from that
pole, so for `i >= 2` its distance to B and C is in general not `radius`. The model follows the code:

- `RingPyramidArguments` puts B and C at radius `OuterRadius(i)`.
- `GetPointOnArc` and `GetPointOnCircle` return points that lie `radius` from the pole. This
  assumes the trigonometric identity `cos^2 + sin^2 = 1` (`OnUnitCircle`).

**32-bit arithmetic.** The counter is a 32-bit `int` (`int32`), and its doubling wraps:

- `CounterValues` proves that it reaches `2^30`, then becomes `int.MinValue`, then stays 0.
- `CounterExceedsCountIff` proves that the loop therefore ends exactly when `count < 2^30`.

The sum `i + connectedRingDistance` in the outer radius is also computed with C#'s wrapping
addition (`AddInt32`).

**Randomness.** `UnityEngine.Random.Range` is a global generator, so it is made explicit as a
`Randomness.RandomSource` shared by the polar system and the builder:

- The source holds a function giving the k-th draw for a requested range, plus a cursor of draws consumed.
- Its promise, `InRange`, is that each draw lies between the two bounds, both ends included.
  That is what Unity documents for the float overload. With the bounds given high-first, it
  still lies between them.
- `GenerateMesh` consumes six draws per pyramid, in the same order as the source: the inner
  corner's azimuth, corner B, corner C, then the three apex offsets.

**Numbers.** Floats are modelled as reals. `Mathf.Cos` and `Mathf.Sin` are a parameter
(`Vectors.Trig`) of the polar system. `Mathf.PI` is its single-precision value.

**Loop structure.** The loop bodies are their own methods, in nesting order:

- `GenerateRings`: the outer loop;
- `AddRing`: one round of it;
- `GenerateRing`: the inner loop;
- `GenerateRingPyramid`: one round of the inner loop.

Each is proved against a ghost "builder" `faces`, the specification of what each placement
appends. `GenerateMesh` instantiates it with `FacesAt()`, the faces of `RingPyramid`.

## Model

| member | source | states |
|---|---|---|
| Spikes.Spike.constructor | Spikes/Assets/Scripts/Spikes/Spike.cs:61-69 | the configuration is as given and both lists start empty, which satisfies the lockstep invariant `Valid` |
| Spikes.Spike.SetVertex | Spikes/Assets/Scripts/Spikes/Spike.cs:147-151 | appends one vertex and, to `triangles`, the old vertex count; the earlier contents stay; the invariant `triangles[k] == k` is kept |
| Spikes.Spike.ValidIndicesInBounds | Spikes/Assets/Scripts/Spikes/Spike.cs:149-150 | in a buffer with the invariant, the two lists have the same length, `triangles[k] == k`, and every index names an existing vertex |
| Spikes.IndicesInBounds | Spikes/Assets/Scripts/Spikes/Spike.cs:147-151 | the index list of a buffer built from empty holds `0 .. n-1`, each below the vertex count |
| Spikes.Spike.SetTriangle | Spikes/Assets/Scripts/Spikes/Spike.cs:140-145 | appends exactly `[c, b, a]` and the next three indices, and keeps the invariant |
| Spikes.Spike.SetPyramid | Spikes/Assets/Scripts/Spikes/Spike.cs:132-138 | appends the four faces (A,B,C), (A,C,T), (A,T,B), (B,T,C), each reversed: 12 vertices and the next 12 indices; keeps the invariant |
| Spikes.PyramidLayout | Spikes/Assets/Scripts/Spikes/Spike.cs:132-138 | the 12 vertices are `[C,B,A, T,C,A, B,T,A, C,T,B]` |
| Spikes.FacesLength | Spikes/Assets/Scripts/Spikes/Spike.cs:132-138 | every pyramid contributes exactly 12 vertices |
| Spikes.Spike.GeneratePyramid | Spikes/Assets/Scripts/Spikes/Spike.cs:113-129 | consumes five draws; appends the faces of the pyramid made of `origin`, B drawn on the arc from `origin`'s azimuth to that plus `range`, C on the arc from that minus `range` to `origin`'s, and the centroid shifted by the three offsets; keeps the invariant |
| Spikes.Spike.RingPyramidArguments | Spikes/Assets/Scripts/Spikes/Spike.cs:101-125 | in ring `i` the inner corner lies at radius `radiusStep*(i-1)` with an azimuth in [0, 2 pi], B and C at the outer radius; B's azimuth lies between the inner corner's and that plus `range`, C's between that minus `range` and the inner corner's; the base lies in the plane y = 0; the apex lies within `heightDeviation` of `averageHeight` |
| Spikes.Spike.OuterRadiusExact | Spikes/Assets/Scripts/Spikes/Spike.cs:102 | without 32-bit overflow, the radius passed to `GeneratePyramid` is `radiusStep*(i + connectedRingDistance)` |
| Spikes.AddInt32Wraps | Spikes/Assets/Scripts/Spikes/Spike.cs:94 | C#'s `int` addition is exact when the sum fits and otherwise agrees with it modulo 2^32 |
| Spikes.Spike.GenerateRingPyramid | Spikes/Assets/Scripts/Spikes/Spike.cs:99-103 | one inner round: consumes six draws and appends 12 vertices (the builder's pyramid for this ring and draw) and the next 12 indices |
| Spikes.Spike.GenerateRing | Spikes/Assets/Scripts/Spikes/Spike.cs:98-103 | the inner loop of ring `i`: appends the `i` pyramids of the ring in draw order, `12*i` vertices and the next `12*i` indices; consumes `6*i` draws |
| Spikes.Spike.AddRing | Spikes/Assets/Scripts/Spikes/Spike.cs:94-104 | one outer round extends the generated prefix of the mesh by ring `i` and leaves ring `i + i` next |
| Spikes.Spike.GenerateRings | Spikes/Assets/Scripts/Spikes/Spike.cs:94-104 | the outer loop appends the pyramids of rings 1, 2, 4, ... up to `count`, with one index per vertex, consuming six draws per pyramid |
| Spikes.Spike.GenerateMesh | Spikes/Assets/Scripts/Spikes/Spike.cs:88-105 | appends (keeping the old contents) the faces of every pyramid of the mesh: `12 * PyramidCount(count)` vertices and the following indices; consumes `6 * PyramidCount(count)` draws; leaves both lists unchanged when `count <= 0`; keeps the invariant |
| Spikes.Spike.RingPlacementsLength | Spikes/Assets/Scripts/Spikes/Spike.cs:98 | the first `n` rounds of the inner loop place `n` pyramids |
| Spikes.Spike.RingPlacementsAt | Spikes/Assets/Scripts/Spikes/Spike.cs:98-102 | pyramid `k` of a ring is built from draws `d + 6k` on |
| Spikes.Spike.MeshCount | Spikes/Assets/Scripts/Spikes/Spike.cs:94-104 | the mesh holds `PyramidCount(count)` pyramids, none when `count <= 0` |
| Spikes.Spike.MeshSize | Spikes/Assets/Scripts/Spikes/Spike.cs:94-104 | the mesh holds 12 vertices per pyramid |
| Spikes.Spike.MeshPlacementsAt | Spikes/Assets/Scripts/Spikes/Spike.cs:94-102 | pyramid `k` of the mesh lies in ring `RingOf(k+1)`, the largest power of two at most `k+1`, which is at most `count`; it is built from draws `d + 6k` on |
| Spikes.Spike.MeshVertexAt | Spikes/Assets/Scripts/Spikes/Spike.cs:94-104 | vertex `12k + m` of the mesh is corner `m` of the faces of pyramid `k`: ring `RingOf(k+1)`, draws `d + 6k` on |
| Spikes.RingsArePowersOfTwo | Spikes/Assets/Scripts/Spikes/Spike.cs:94 | the counter sequence 1, 2, 4, ... up to `count` contains `r` exactly when `r` is a power of two with `1 <= r <= count`, so it is empty when `count <= 0`; for `count < 2^30` these are the 32-bit counter's values (`CounterValues`), and from `2^30` on the C# counter also takes `int.MinValue` and 0 |
| Spikes.Spike.MeshRings | Spikes/Assets/Scripts/Spikes/Spike.cs:94-98 | some pyramid of the mesh lies in ring `r` exactly when `r` is a power of two with `1 <= r <= count` |
| Spikes.PyramidCountClosedForm | Spikes/Assets/Scripts/Spikes/Spike.cs:94-104 | with `2^k` the largest power of two at most `count`, there are `2^(k+1) - 1` pyramids; none when `count <= 0` |
| Spikes.PyramidCountExamples | Spikes/Assets/Scripts/Spikes/Spike.cs:94-104 | count 0 gives no ring, count 1 gives ring 1 (one pyramid, 12 vertices), count 4 gives rings 1, 2, 4 (seven pyramids, 84 vertices) |
| Spikes.CounterValues | Spikes/Assets/Scripts/Spikes/Spike.cs:94 | after `n` doublings the 32-bit counter is `2^n` up to `n = 30`, then `int.MinValue`, then 0 for ever |
| Spikes.CounterExceedsCountIff | Spikes/Assets/Scripts/Spikes/Spike.cs:94 | the counter ever exceeds `count` (so the loop ends) if and only if `count < 2^30` |
| Randomness.RandomSource.Range | Spikes/Assets/Scripts/Spikes/Spike.cs:123-125 | `Random.Range(lo, hi)` consumes the next draw and, under the generator's promise, returns a value between the bounds |
| PolarGeometry.PolarSystem.constructor | Spikes/Assets/Scripts/Geometry/PolarSystem.cs:16-19 | the pole is fixed at construction |
| PolarGeometry.PolarSystem.GetPointOnCircle | Spikes/Assets/Scripts/Geometry/PolarSystem.cs:32-40 | consumes one draw; returns the vector around the pole at the given radius with the drawn azimuth, in [0, 2 pi]; with `cos^2 + sin^2 = 1` its world position lies `radius` from the pole |
| PolarGeometry.PolarSystem.GetPointOnArc | Spikes/Assets/Scripts/Geometry/PolarSystem.cs:42-52 | consumes one draw; returns the vector at the given radius with an azimuth between the two bounds; with `cos^2 + sin^2 = 1` its world position lies `radius` from the pole |
| PolarGeometry.FromPolarAroundDistance | Spikes/Assets/Scripts/Geometry/PolarVector.cs:27-34 | with `cos^2 + sin^2 = 1`, a vector built at `radius` around a pole has squared length `radius^2`, both in its pole-relative form and as its world position minus the pole's |

## Left out

- `Start()` (Spike.cs:61-86) is left out: it builds the Unity `Mesh`, attaches `MeshFilter`/`MeshCollider`, copies the lists into arrays and calls `RecalculateNormals`. Only its creation of the empty lists is modelled, by `Spikes.Spike.constructor`.
- `UnityEngine.Random` is foreign, global state. It is modelled only by its contract (`InRange`): a draw lies between the requested bounds. The concrete generator, its seeding and its distribution are not modelled.
- Floating-point rounding is not modelled: all lengths, angles and coordinates are reals. `Mathf.Cos` and `Mathf.Sin` are taken as a parameter and not defined; the distance properties assume of them only `cos^2 + sin^2 = 1`.
- The `PolarVector(Vector3)` constructor (PolarVector.cs:36-43, `Sqrt` and `Atan2`) is not modelled. It only builds the pole in `Start`, so the pole is a parameter of `PolarGeometry.PolarSystem`.
- The `PolarVector(radius, azimuth)` constructor without a pole (PolarVector.cs:19-25) is not modelled, because the core does not use it.
- The public setters of `Radius` and `Azimuth` are not modelled: a `PolarVector` is an immutable value here, because nothing in the core mutates one.
- The `GetPointOnCircle(radius, azimuthRange, relativeTo)` overload (PolarSystem.cs:62-65) is not modelled, because the core does not call it.
- The list lengths are unbounded. `List<T>` growth and `vertices.Count` overflowing `int` are not modelled.
- The configuration fields (Spike.cs:15-50) are constants of the class, taken as unconstrained constructor arguments. Unity's inspector can change them between frames, but `GenerateMesh` only reads them.
  - Their initial values are not modelled: `radiusStep = 1`, `averageHeight = 1`, `heightDeviation = 0`, `maxTopDisplacement = 0`, `count = 1` and `connectedRingDistance = 5`.
  - The inspector bound `[Range(0, Mathf.PI)]` on `range` (Spike.cs:44) is not modelled either.
  - No proved property depends on any of these.
- Spikes.Spike.GenerateMesh: requires `count < 2^30`. From `2^30` on, the C# loop never terminates (`CounterExceedsCountIff`), so no result can be stated there.
- Spikes.Spike.GenerateRingPyramid, Spikes.Spike.GenerateRing, Spikes.Spike.AddRing and Spikes.Spike.GenerateRings: the source's loop bodies, written as methods of their own. Their contracts are stated against a ghost builder argument instead of `RingPyramid` directly, and `GenerateMesh` supplies `FacesAt()`.
