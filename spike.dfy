/** The spike mesh builder: walks rings around a polar origin and appends
    the faces of one pyramid after another to a vertex list and an index
    list that grow in lockstep. */
module Spikes {
  import opened Vectors
  import opened Randomness
  import opened PolarGeometry

  /** C#'s `int`. */
  newtype int32 = x: int | -0x8000_0000 <= x < 0x8000_0000

  /** C#'s unchecked `a + b` on `int`: the exact sum when it fits, otherwise
      the sum wrapped modulo 2^32 into the signed range. */
  function AddInt32(a: int32, b: int32): int32 {
    var s := a as int + b as int;
    if s >= 0x8000_0000 then (s - 0x1_0000_0000) as int32
    else if s < -0x8000_0000 then (s + 0x1_0000_0000) as int32
    else s as int32
  }

  /** The wrapped sum is the exact sum when that fits, and always agrees
      with it modulo 2^32. */
  lemma AddInt32Wraps(a: int32, b: int32)
    ensures -0x8000_0000 <= a as int + b as int < 0x8000_0000 ==> AddInt32(a, b) as int == a as int + b as int
    ensures (a as int + b as int - AddInt32(a, b) as int) % 0x1_0000_0000 == 0
  {
  }

  // ---------------------------------------------------------------------
  // Faces
  // ---------------------------------------------------------------------

  /** What `SetTriangle(a, b, c)` appends: the corners in reverse order. */
  function TriangleVertices(a: Vec3, b: Vec3, c: Vec3): seq<Vec3> {
    [c, b, a]
  }

  /** What `SetPyramid(A, B, C, T)` appends: the base (A, B, C) and the three
      lateral faces (A, C, T), (A, T, B) and (B, T, C). */
  function PyramidVertices(a: Vec3, b: Vec3, c: Vec3, top: Vec3): seq<Vec3> {
    TriangleVertices(a, b, c) + TriangleVertices(a, c, top)
      + TriangleVertices(a, top, b) + TriangleVertices(b, top, c)
  }

  lemma PyramidLayout(a: Vec3, b: Vec3, c: Vec3, top: Vec3)
    ensures PyramidVertices(a, b, c, top) == [c, b, a, top, c, a, b, top, a, c, top, b]
  {
  }

  /** The three base corners (in polar form) and the apex of one pyramid. */
  datatype Pyramid = Pyramid(origin: PolarVector, pointB: PolarVector, pointC: PolarVector, top: Vec3)

  function Faces(p: Pyramid): seq<Vec3> {
    PyramidVertices(p.origin.cartesian, p.pointB.cartesian, p.pointC.cartesian, p.top)
  }

  lemma FacesLength(p: Pyramid)
    ensures |Faces(p)| == 12
  {
  }

  /** Which pyramid of the mesh: the ring it belongs to and the number of
      the first of the six draws it consumes. */
  datatype Placement = Placement(ring: int32, draw: nat)

  // Proof helpers. The next four lemmas, `AppendFaces`, `AppendIndices`,
  // `RingStep`, `MeshStep` and `MeshComplete` state small sequence facts in
  // the exact shape the loops of `Spike` need, with the states before and
  // after a step as arguments; `Builds` is kept apart from `AgreesWithRings`
  // and the ring loops take a ghost builder for the same reason: each keeps
  // the pyramid geometry out of proofs that only count and concatenate.

  lemma EmptyPrefix<T>(s: seq<T>)
    ensures [] + s == s
  {
  }

  lemma NoFaces(faces: Placement -> seq<Vec3>, vs: seq<Vec3>)
    ensures vs == vs + FacesOf(faces, [])
  {
  }

  lemma NoIndices(ts: seq<int>, from: nat)
    ensures ts == ts + Indices(from, 0)
  {
  }

  lemma ConcatAssoc<T>(a: seq<T>, b: seq<T>, c: seq<T>)
    ensures (a + b) + c == a + (b + c)
  {
  }

  /** The vertices appended for the pyramids placed at `ps`, in order,
      where `faces` gives the vertices appended for each placement. */
  function FacesOf(faces: Placement -> seq<Vec3>, ps: seq<Placement>): seq<Vec3> {
    if ps == [] then [] else FacesOf(faces, ps[..|ps| - 1]) + faces(ps[|ps| - 1])
  }

  lemma {:induction false} FacesOfLength(faces: Placement -> seq<Vec3>, ps: seq<Placement>)
    requires forall p :: |faces(p)| == 12
    ensures |FacesOf(faces, ps)| == 12 * |ps|
  {
    if ps != [] {
      FacesOfLength(faces, ps[..|ps| - 1]);
    }
  }

  /** Vertex `12 * k + m` of the buffer is vertex `m` of pyramid `k`'s faces. */
  lemma {:induction false} FacesOfAt(faces: Placement -> seq<Vec3>, ps: seq<Placement>, k: nat, m: nat)
    requires forall p :: |faces(p)| == 12
    requires k < |ps| && m < 12
    ensures |FacesOf(faces, ps)| == 12 * |ps|
    ensures FacesOf(faces, ps)[12 * k + m] == faces(ps[k])[m]
  {
    var last := |ps| - 1;
    FacesOfLength(faces, ps);
    FacesOfLength(faces, ps[..last]);
    if k < last {
      FacesOfAt(faces, ps[..last], k, m);
    }
  }

  lemma FacesOfSnoc(faces: Placement -> seq<Vec3>, ps: seq<Placement>, p: Placement)
    ensures FacesOf(faces, ps + [p]) == FacesOf(faces, ps) + faces(p)
  {
    assert (ps + [p])[..|ps|] == ps;
  }

  lemma {:induction false} FacesOfConcat(faces: Placement -> seq<Vec3>, ps: seq<Placement>, qs: seq<Placement>)
    ensures FacesOf(faces, ps + qs) == FacesOf(faces, ps) + FacesOf(faces, qs)
    decreases |qs|
  {
    if qs == [] {
      assert ps + qs == ps;
    } else {
      var init, last := qs[..|qs| - 1], qs[|qs| - 1];
      assert qs == init + [last];
      assert ps + qs == (ps + init) + [last];
      FacesOfSnoc(faces, ps + init, last);
      FacesOfSnoc(faces, init, last);
      FacesOfConcat(faces, ps, init);
    }
  }

  /** Appending the faces of `qs` to a buffer ending in those of `ps`. */
  lemma AppendFaces(faces: Placement -> seq<Vec3>, vs: seq<Vec3>, ps: seq<Placement>, qs: seq<Placement>, before: seq<Vec3>, after: seq<Vec3>)
    requires before == vs + FacesOf(faces, ps) && after == before + FacesOf(faces, qs)
    ensures after == vs + FacesOf(faces, ps + qs)
  {
    FacesOfConcat(faces, ps, qs);
  }

  /** Appending the faces of one more pyramid, placed at `p`. */
  lemma AppendPyramid(faces: Placement -> seq<Vec3>, vs: seq<Vec3>, ps: seq<Placement>, p: Placement)
    ensures (vs + FacesOf(faces, ps)) + faces(p) == vs + FacesOf(faces, ps + [p])
  {
    FacesOfSnoc(faces, ps, p);
  }

  // ---------------------------------------------------------------------
  // Index buffer
  // ---------------------------------------------------------------------

  /** The indices `from, from + 1, ..., from + n - 1`. */
  function Indices(from: nat, n: nat): seq<int> {
    seq(n, k => from + k)
  }

  lemma IndicesConcat(from: nat, n: nat, m: nat)
    ensures Indices(from, n) + Indices(from + n, m) == Indices(from, n + m)
  {
    var lhs, rhs := Indices(from, n) + Indices(from + n, m), Indices(from, n + m);
    assert |lhs| == |rhs|;
    forall k | 0 <= k < |lhs| ensures lhs[k] == rhs[k] {
      if k >= n { assert lhs[k] == Indices(from + n, m)[k - n]; }
    }
  }

  /** Appending the next `m` indices to a buffer ending in `n` of them. */
  lemma AppendIndices(ts: seq<int>, from: nat, n: nat, start: nat, m: nat, total: nat, before: seq<int>, after: seq<int>)
    requires start == from + n && total == n + m
    requires before == ts + Indices(from, n) && after == before + Indices(start, m)
    ensures after == ts + Indices(from, total)
  {
    IndicesConcat(from, n, m);
  }

  /** A buffer built from empty has `triangles[k] == k` everywhere, so every
      index names an existing vertex. */
  lemma IndicesInBounds(n: nat)
    ensures |Indices(0, n)| == n
    ensures forall k :: 0 <= k < n ==> Indices(0, n)[k] == k && 0 <= Indices(0, n)[k] < n
  {
  }

  // ---------------------------------------------------------------------
  // Rings visited by the doubling loop
  // ---------------------------------------------------------------------

  /** The values the ring counter takes from `i` on while it is at most `count`. */
  function RingsFrom(i: nat, count: int): seq<nat>
    requires i >= 1
    decreases count - i
  {
    if i > count then [] else [i] + RingsFrom(2 * i, count)
  }

  function Rings(count: int): seq<nat> {
    RingsFrom(1, count)
  }

  function Sum(s: seq<nat>): nat {
    if s == [] then 0 else s[0] + Sum(s[1..])
  }

  /** Ring `i` holds `i` pyramids, so this many pyramids are generated. */
  function PyramidCount(count: int): nat {
    Sum(Rings(count))
  }

  predicate IsPowerOfTwo(n: nat)
    decreases n
  {
    n == 1 || (n >= 2 && n % 2 == 0 && IsPowerOfTwo(n / 2))
  }

  function Pow2(k: nat): (r: nat)
    ensures r >= 1
  {
    if k == 0 then 1 else 2 * Pow2(k - 1)
  }

  function Log2Floor(n: nat): nat
    requires n >= 1
  {
    if n == 1 then 0 else 1 + Log2Floor(n / 2)
  }

  lemma {:induction false} Pow2IsPowerOfTwo(k: nat)
    ensures IsPowerOfTwo(Pow2(k))
  {
    if k > 0 {
      Pow2IsPowerOfTwo(k - 1);
      assert Pow2(k) / 2 == Pow2(k - 1);
    }
  }

  lemma {:induction false} Pow2Monotone(a: nat, b: nat)
    requires a <= b
    ensures 1 <= Pow2(a) <= Pow2(b)
    decreases b
  {
    if b > 0 && a < b {
      Pow2Monotone(a, b - 1);
    } else if b > 0 {
      Pow2Monotone(a - 1, b - 1);
    }
  }

  /** `2^k` with `k = Log2Floor(n)` is the largest power of two at most `n`. */
  lemma {:induction false} Log2FloorBounds(n: nat)
    requires n >= 1
    ensures Pow2(Log2Floor(n)) <= n < Pow2(Log2Floor(n) + 1)
  {
    if n > 1 {
      Log2FloorBounds(n / 2);
    }
  }

  /** Two powers of two less than a factor of two apart are equal. */
  lemma {:induction false} PowerOfTwoGap(p: nat, r: nat)
    requires IsPowerOfTwo(p) && IsPowerOfTwo(r) && p <= r < 2 * p
    ensures r == p
    decreases p
  {
    if p != 1 {
      PowerOfTwoGap(p / 2, r / 2);
    }
  }

  /** The ring that pyramid number `n - 1` of the mesh lies in: the largest
      power of two at most `n`. */
  function RingOf(n: nat): nat
    requires n >= 1
  {
    Pow2(Log2Floor(n))
  }

  lemma RingOfBounds(n: nat)
    requires n >= 1
    ensures IsPowerOfTwo(RingOf(n)) && RingOf(n) <= n < 2 * RingOf(n)
  {
    Log2FloorBounds(n);
    Pow2IsPowerOfTwo(Log2Floor(n));
  }

  lemma RingOfPowerOfTwo(p: nat, n: nat)
    requires IsPowerOfTwo(p) && p <= n < 2 * p
    ensures RingOf(n) == p
  {
    RingOfBounds(n);
    var r := RingOf(n);
    if r <= p {
      PowerOfTwoGap(r, p);
    } else {
      PowerOfTwoGap(p, r);
    }
  }

  lemma {:induction false} RingsFromMembers(i: nat, count: int, r: nat)
    requires IsPowerOfTwo(i)
    ensures r in RingsFrom(i, count) <==> IsPowerOfTwo(r) && i <= r <= count
    decreases count - i
  {
    if i <= count {
      assert IsPowerOfTwo(2 * i) by { assert (2 * i) / 2 == i; }
      RingsFromMembers(2 * i, count, r);
      if IsPowerOfTwo(r) && i <= r < 2 * i {
        PowerOfTwoGap(i, r);
      }
    }
  }

  /** The outer loop visits exactly the powers of two from 1 up to `count`
      (none when `count <= 0`). */
  lemma RingsArePowersOfTwo(count: int, r: nat)
    ensures r in Rings(count) <==> IsPowerOfTwo(r) && 1 <= r <= count
  {
    RingsFromMembers(1, count, r);
  }

  lemma {:induction false} RingsFromSum(m: nat, count: int, top: nat)
    requires Pow2(top) <= count < Pow2(top + 1)
    requires m <= top + 1
    ensures Sum(RingsFrom(Pow2(m), count)) == Pow2(top + 1) - Pow2(m)
    decreases top + 1 - m
  {
    Pow2Monotone(0, m);
    if m <= top {
      Pow2Monotone(m, top);
      RingsFromSum(m + 1, count, top);
    }
  }

  /** With `2^k` the largest power of two at most `count`, the rings hold
      `1 + 2 + ... + 2^k == 2^(k+1) - 1` pyramids; no ring means none. */
  lemma PyramidCountClosedForm(count: int)
    ensures count <= 0 ==> PyramidCount(count) == 0
    ensures count >= 1 ==>
      var k := Log2Floor(count);
      Pow2(k) <= count < Pow2(k + 1) && PyramidCount(count) == Pow2(k + 1) - 1
  {
    if count >= 1 {
      Log2FloorBounds(count);
      RingsFromSum(0, count, Log2Floor(count));
    }
  }

  lemma PyramidCountExamples()
    ensures Rings(0) == [] && PyramidCount(0) == 0
    ensures Rings(1) == [1] && PyramidCount(1) == 1
    ensures Rings(4) == [1, 2, 4] && PyramidCount(4) == 7
  {
  }

  // ---------------------------------------------------------------------
  // The 32-bit ring counter
  // ---------------------------------------------------------------------

  /** The C# counter after `n` steps of `i += i` from `i = 1`. */
  function CounterAfter(n: nat): int32 {
    if n == 0 then 1 else AddInt32(CounterAfter(n - 1), CounterAfter(n - 1))
  }

  lemma Pow2Values()
    ensures Pow2(29) == 0x2000_0000 && Pow2(30) == 0x4000_0000
  {
    assert Pow2(10) == 0x400;
    assert Pow2(20) == 0x10_0000;
  }

  lemma {:induction false} Pow2Less(a: nat, b: nat)
    ensures Pow2(a) < Pow2(b) <==> a < b
  {
    if a < b {
      Pow2Monotone(a, b - 1);
    } else {
      Pow2Monotone(b, a);
    }
  }

  lemma {:induction false} CounterDoubles(n: nat)
    requires n <= 30
    ensures CounterAfter(n) as int == Pow2(n)
  {
    if n > 0 {
      CounterDoubles(n - 1);
      Pow2Monotone(n - 1, 29);
      Pow2Values();
    }
  }

  lemma {:induction false} CounterWrapped(n: nat)
    requires n >= 31
    ensures CounterAfter(n) == if n == 31 then -0x8000_0000 else 0
  {
    if n == 31 {
      CounterDoubles(30);
      Pow2Values();
      assert CounterAfter(30) == 0x4000_0000;
    } else {
      CounterWrapped(n - 1);
    }
  }

  /** The counter doubles up to 2^30, wraps to `int.MinValue` at the next
      step and is 0 from then on. */
  lemma CounterValues(n: nat)
    ensures n <= 30 ==> CounterAfter(n) as int == Pow2(n)
    ensures n == 31 ==> CounterAfter(n) == -0x8000_0000
    ensures n >= 32 ==> CounterAfter(n) == 0
  {
    if n <= 30 {
      CounterDoubles(n);
    } else {
      CounterWrapped(n);
    }
  }

  /** The loop `for (int i = 1; i <= count; i += i)` stops for every `count`
      below 2^30 and never stops from 2^30 on: the counter wraps to
      `int.MinValue` and then sticks at 0. */
  lemma CounterExceedsCountIff(count: int32)
    ensures (exists n: nat :: CounterAfter(n) > count) <==> count < 0x4000_0000
  {
    Pow2Values();
    if count < 0x4000_0000 {
      var n: nat := if count < 1 then 0 else Log2Floor(count as int) + 1;
      if count >= 1 {
        Log2FloorBounds(count as int);
        Pow2Less(n - 1, 30);
        CounterValues(n);
      }
      assert CounterAfter(n) > count;
    } else {
      forall n: nat ensures CounterAfter(n) <= count {
        CounterValues(n);
        if n <= 30 {
          Pow2Monotone(n, 30);
        }
      }
    }
  }

  // ---------------------------------------------------------------------
  // The builder
  // ---------------------------------------------------------------------

  class Spike {
    const radiusStep: real
    const averageHeight: real
    const heightDeviation: real
    const maxTopDisplacement: real
    const count: int32
    const range: real
    const connectedRingDistance: int32

    const system: PolarSystem
    const random: RandomSource

    var vertices: seq<Vec3>
    var triangles: seq<int>

    /** The two buffers grow in lockstep: entry k of `triangles` is k. */
    ghost predicate Valid()
      reads this
    {
      triangles == Indices(0, |vertices|)
    }

    constructor (radiusStep: real, averageHeight: real, heightDeviation: real,
                 maxTopDisplacement: real, count: int32, range: real,
                 connectedRingDistance: int32, system: PolarSystem, random: RandomSource)
      ensures this.radiusStep == radiusStep && this.averageHeight == averageHeight
      ensures this.heightDeviation == heightDeviation && this.maxTopDisplacement == maxTopDisplacement
      ensures this.count == count && this.range == range
      ensures this.connectedRingDistance == connectedRingDistance
      ensures this.system == system && this.random == random
      ensures vertices == [] && triangles == [] && Valid()
    {
      this.radiusStep := radiusStep;
      this.averageHeight := averageHeight;
      this.heightDeviation := heightDeviation;
      this.maxTopDisplacement := maxTopDisplacement;
      this.count := count;
      this.range := range;
      this.connectedRingDistance := connectedRingDistance;
      this.system := system;
      this.random := random;
      vertices := [];
      triangles := [];
    }

    /** In a valid buffer every index is in bounds. */
    lemma ValidIndicesInBounds()
      requires Valid()
      ensures |triangles| == |vertices|
      ensures forall k :: 0 <= k < |triangles| ==> triangles[k] == k && 0 <= triangles[k] < |vertices|
    {
      IndicesInBounds(|vertices|);
    }

    // ----- the pyramids the loop generates, as functions of the draws -----

    /** `radiusStep * (i - 1)`: the circle ring `i`'s inner points lie on. */
    function InnerRadius(i: int32): real {
      radiusStep * ((i as int - 1) as real)
    }

    /** `radiusStep * (i + connectedRingDistance)`, the sum in 32-bit `int`. */
    function OuterRadius(i: int32): real {
      radiusStep * (AddInt32(i, connectedRingDistance) as int as real)
    }

    /** What `GeneratePyramid(origin, radius)` builds from draw `d` on. */
    function SamplePyramid(origin: PolarVector, radius: real, d: nat): Pyramid {
      var b := system.PointAt(radius, random.draws(d, origin.azimuth, origin.azimuth + range));
      var c := system.PointAt(radius, random.draws(d + 1, origin.azimuth - range, origin.azimuth));
      Pyramid(origin, b, c, Add(Centroid(origin.cartesian, b.cartesian, c.cartesian), Shift(d + 2)))
    }

    /** The apex's random offset from the base centroid, from draw `d` on. */
    function Shift(d: nat): Vec3 {
      Vec3(random.draws(d, -maxTopDisplacement, maxTopDisplacement),
           averageHeight + random.draws(d + 1, -heightDeviation, heightDeviation),
           random.draws(d + 2, -maxTopDisplacement, maxTopDisplacement))
    }

    /** One pyramid of ring `i`, from draw `d` on. Each pyramid takes six
        draws: the inner corner's azimuth, the azimuths of B and C, and the
        three components of the apex's shift. */
    function RingPyramid(i: int32, d: nat): Pyramid {
      var origin := system.PointAt(InnerRadius(i), random.draws(d, 0.0, 2.0 * PI));
      SamplePyramid(origin, OuterRadius(i), d + 1)
    }

    /** The vertices appended for the pyramid at each placement. */
    function FacesAt(): Placement -> seq<Vec3> {
      (p: Placement) => Faces(RingPyramid(p.ring, p.draw))
    }

    /** The first `n` pyramids of ring `i`, from draw `d` on. */
    function RingPlacements(i: int32, d: nat, n: nat): seq<Placement> {
      if n == 0 then [] else RingPlacements(i, d, n - 1) + [Placement(i, d + 6 * (n - 1))]
    }

    /** The pyramids of rings `i, 2i, 4i, ...` up to `count`, from draw `d` on. */
    function MeshPlacements(i: nat, d: nat): seq<Placement>
      requires i >= 1
      decreases count as int - i
    {
      if i > count as int then []
      else RingPlacements(i as int32, d, i) + MeshPlacements(2 * i, d + 6 * i)
    }

    /** `faces` gives at every placement the faces of the pyramid
        `RingPyramid` builds there. */
    ghost predicate AgreesWithRings(faces: Placement -> seq<Vec3>) {
      forall i: int32, d: nat {:trigger RingPyramid(i, d)} :: faces(Placement(i, d)) == Faces(RingPyramid(i, d))
    }

    /** What the loop methods ask of their ghost builder. */
    ghost predicate Builds(faces: Placement -> seq<Vec3>) {
      AgreesWithRings(faces)
    }

    lemma FacesAtBuilds()
      ensures Builds(FacesAt())
    {
    }

    lemma BuildsLength(faces: Placement -> seq<Vec3>)
      requires Builds(faces)
      ensures forall p :: |faces(p)| == 12
    {
      forall p: Placement
        ensures |faces(p)| == 12
      {
        assert faces(Placement(p.ring, p.draw)) == Faces(RingPyramid(p.ring, p.draw));
        FacesLength(RingPyramid(p.ring, p.draw));
      }
    }

    lemma RingPyramidFrom(i: int32, d: nat, origin: PolarVector)
      requires origin == system.PointAt(InnerRadius(i), random.draws(d, 0.0, 2.0 * PI))
      ensures SamplePyramid(origin, OuterRadius(i), d + 1) == RingPyramid(i, d)
    {
    }

    lemma NoPlacements(faces: Placement -> seq<Vec3>, vs: seq<Vec3>, i: int32, d: nat)
      ensures vs == vs + FacesOf(faces, RingPlacements(i, d, 0))
    {
      assert RingPlacements(i, d, 0) == [];
    }

    lemma RingPlacementsSnoc(i: int32, d: nat, n: nat)
      ensures RingPlacements(i, d, n + 1) == RingPlacements(i, d, n) + [Placement(i, d + 6 * n)]
    {
    }

    /** One more pyramid of ring `i` extends the buffer by its faces. */
    lemma RingStep(faces: Placement -> seq<Vec3>, vs: seq<Vec3>, i: int32, d: nat, n: nat, before: seq<Vec3>, after: seq<Vec3>)
      requires before == vs + FacesOf(faces, RingPlacements(i, d, n))
      requires after == before + faces(Placement(i, d + 6 * n))
      ensures after == vs + FacesOf(faces, RingPlacements(i, d, n + 1))
    {
      RingPlacementsSnoc(i, d, n);
      AppendPyramid(faces, vs, RingPlacements(i, d, n), Placement(i, d + 6 * n));
    }

    lemma {:induction false} RingPlacementsLength(i: int32, d: nat, n: nat)
      ensures |RingPlacements(i, d, n)| == n
    {
      if n > 0 {
        RingPlacementsLength(i, d, n - 1);
      }
    }

    /** Pyramid `k` of ring `i` is built from draws `d + 6k` on. */
    lemma {:induction false} RingPlacementsAt(i: int32, d: nat, n: nat, k: nat)
      requires k < n
      ensures |RingPlacements(i, d, n)| == n
      ensures RingPlacements(i, d, n)[k] == Placement(i, d + 6 * k)
    {
      RingPlacementsLength(i, d, n);
      RingPlacementsLength(i, d, n - 1);
      if k < n - 1 {
        RingPlacementsAt(i, d, n - 1, k);
      }
    }

    lemma MeshPlacementsStep(i: nat, d: nat)
      requires 1 <= i <= count as int
      ensures MeshPlacements(i, d) == RingPlacements(i as int32, d, i) + MeshPlacements(2 * i, d + 6 * i)
      ensures |RingPlacements(i as int32, d, i)| == i
    {
      RingPlacementsLength(i as int32, d, i);
    }

    lemma MeshStep(d0: nat, built: seq<Placement>, i: nat, d: nat, ring: seq<Placement>, next: nat, nd: nat)
      requires 1 <= i <= count as int && next == 2 * i && nd == d + 6 * i
      requires ring == RingPlacements(i as int32, d, i)
      requires built + MeshPlacements(i, d) == MeshPlacements(1, d0)
      ensures (built + ring) + MeshPlacements(next, nd) == MeshPlacements(1, d0)
      ensures |ring| == i
    {
      MeshPlacementsStep(i, d);
      ConcatAssoc(built, ring, MeshPlacements(next, nd));
    }

    lemma MeshComplete(built: seq<Placement>, i: nat, d: nat, d0: nat)
      requires 1 <= i && count as int < i
      requires built + MeshPlacements(i, d) == MeshPlacements(1, d0)
      ensures built == MeshPlacements(1, d0)
    {
      assert built + [] == built;
    }

    lemma {:induction false} MeshPlacementsCount(i: nat, d: nat)
      requires i >= 1
      ensures |MeshPlacements(i, d)| == Sum(RingsFrom(i, count as int))
      decreases count as int - i
    {
      if i <= count as int {
        RingPlacementsLength(i as int32, d, i);
        MeshPlacementsCount(2 * i, d + 6 * i);
      }
    }

    /** The mesh holds `PyramidCount(count)` pyramids; with `count <= 0`
        it is empty. */
    lemma MeshCount(d: nat)
      ensures |MeshPlacements(1, d)| == PyramidCount(count as int)
      ensures count <= 0 ==> MeshPlacements(1, d) == []
    {
      MeshPlacementsCount(1, d);
    }

    /** The mesh holds 12 vertices for each of its pyramids. */
    lemma MeshSize(d: nat)
      ensures |FacesOf(FacesAt(), MeshPlacements(1, d))| == 12 * PyramidCount(count as int)
    {
      MeshCount(d);
      FacesAtBuilds();
      BuildsLength(FacesAt());
      FacesOfLength(FacesAt(), MeshPlacements(1, d));
    }

    lemma {:induction false} MeshPlacementsFrom(i: nat, d: nat, k: nat)
      requires i >= 1 && IsPowerOfTwo(i) && k < |MeshPlacements(i, d)|
      ensures i <= RingOf(k + i) <= count as int
      ensures MeshPlacements(i, d)[k] == Placement(RingOf(k + i) as int32, d + 6 * k)
      decreases count as int - i
    {
      RingPlacementsLength(i as int32, d, i);
      if k < i {
        RingOfPowerOfTwo(i, k + i);
        RingPlacementsAt(i as int32, d, i, k);
      } else {
        assert IsPowerOfTwo(2 * i) by { assert (2 * i) / 2 == i; }
        MeshPlacementsFrom(2 * i, d + 6 * i, k - i);
      }
    }

    /** Pyramid `k` of the mesh lies in ring `RingOf(k + 1)`, the largest
        power of two at most `k + 1` (a ring of the loop, so at most
        `count`), and is built from draws `d + 6k` to `d + 6k + 5`. */
    lemma MeshPlacementsAt(d: nat, k: nat)
      requires k < |MeshPlacements(1, d)|
      ensures IsPowerOfTwo(RingOf(k + 1)) && RingOf(k + 1) <= k + 1 < 2 * RingOf(k + 1)
      ensures RingOf(k + 1) <= count as int
      ensures MeshPlacements(1, d)[k] == Placement(RingOf(k + 1) as int32, d + 6 * k)
    {
      RingOfBounds(k + 1);
      MeshPlacementsFrom(1, d, k);
    }

    /** The rings the pyramids of the mesh lie in are exactly the powers of
        two from 1 up to `count`. */
    lemma MeshRings(d: nat, r: nat)
      ensures (exists k :: 0 <= k < |MeshPlacements(1, d)| && MeshPlacements(1, d)[k].ring as int == r)
              <==> IsPowerOfTwo(r) && 1 <= r <= count as int
    {
      var ps := MeshPlacements(1, d);
      MeshCount(d);
      if IsPowerOfTwo(r) && 1 <= r <= count as int {
        PyramidCountClosedForm(count as int);
        RingOfPowerOfTwo(r, r);
        MeshPlacementsAt(d, r - 1);
        assert ps[r - 1].ring as int == r;
      }
      forall k | 0 <= k < |ps| && ps[k].ring as int == r
        ensures IsPowerOfTwo(r) && 1 <= r <= count as int
      {
        MeshPlacementsAt(d, k);
      }
    }

    /** Vertex `12k + m` of what `GenerateMesh` appends is vertex `m` of the
        pyramid of ring `RingOf(k + 1)` built from draws `d + 6k` on. It is
        stated for any builder agreeing with `RingPyramid`, `FacesAt()`
        among them (`FacesAtBuilds`). */
    lemma MeshVertexAt(faces: Placement -> seq<Vec3>, d: nat, k: nat, m: nat)
      requires Builds(faces)
      requires k < PyramidCount(count as int) && m < 12
      ensures RingOf(k + 1) <= count as int
      ensures |FacesOf(faces, MeshPlacements(1, d))| == 12 * PyramidCount(count as int)
      ensures FacesOf(faces, MeshPlacements(1, d))[12 * k + m]
              == Faces(RingPyramid(RingOf(k + 1) as int32, d + 6 * k))[m]
    {
      MeshCount(d);
      BuildsLength(faces);
      MeshPlacementsAt(d, k);
      FacesOfAt(faces, MeshPlacements(1, d), k, m);
    }

    /** The arguments a ring-`i` pyramid is built from: its inner corner on
        the circle of radius `radiusStep * (i - 1)`, B and C on the circle of
        radius `OuterRadius(i)`, B's azimuth between the inner corner's and
        that plus `range`, C's between that minus `range` and the inner
        corner's, and the apex at height `averageHeight` give or take
        `heightDeviation` above the base, which lies in the plane y = 0. */
    lemma RingPyramidArguments(i: int32, d: nat)
      requires InRange(random.draws)
      ensures var p := RingPyramid(i, d);
        && p.origin.radius == radiusStep * ((i as int - 1) as real)
        && 0.0 <= p.origin.azimuth <= 2.0 * PI
        && p.pointB.radius == OuterRadius(i) && p.pointC.radius == OuterRadius(i)
        && Between(p.pointB.azimuth, p.origin.azimuth, p.origin.azimuth + range)
        && Between(p.pointC.azimuth, p.origin.azimuth - range, p.origin.azimuth)
        && p.origin.cartesian.y == 0.0 && p.pointB.cartesian.y == 0.0 && p.pointC.cartesian.y == 0.0
        && Between(p.top.y, averageHeight - heightDeviation, averageHeight + heightDeviation)
    {
    }

    /** Without 32-bit overflow, the outer radius is `radiusStep * (i + connectedRingDistance)`. */
    lemma OuterRadiusExact(i: int32)
      requires i as int + connectedRingDistance as int < 0x8000_0000
      requires -0x8000_0000 <= i as int + connectedRingDistance as int
      ensures OuterRadius(i) == radiusStep * ((i as int + connectedRingDistance as int) as real)
    {
    }

    // ----- the methods -----

    /** `SetVertex(vertex)`: the index appended is the old vertex count. */
    method SetVertex(vertex: Vec3)
      modifies this
      ensures vertices == old(vertices) + [vertex]
      ensures triangles == old(triangles) + [|old(vertices)|]
      ensures old(Valid()) ==> Valid()
    {
      triangles := triangles + [|vertices|];
      vertices := vertices + [vertex];
      IndicesConcat(0, |old(vertices)|, 1);
    }

    method SetTriangle(a: Vec3, b: Vec3, c: Vec3)
      modifies this
      ensures vertices == old(vertices) + TriangleVertices(a, b, c)
      ensures triangles == old(triangles) + Indices(|old(vertices)|, 3)
      ensures old(Valid()) ==> Valid()
    {
      SetVertex(c);
      SetVertex(b);
      SetVertex(a);
      var n := |old(vertices)|;
      assert Indices(n, 3) == [n, n + 1, n + 2];
    }

    method SetPyramid(baseA: Vec3, baseB: Vec3, baseC: Vec3, top: Vec3)
      modifies this
      ensures vertices == old(vertices) + PyramidVertices(baseA, baseB, baseC, top)
      ensures triangles == old(triangles) + Indices(|old(vertices)|, 12)
      ensures |vertices| == |old(vertices)| + 12
      ensures old(Valid()) ==> Valid()
    {
      var n := |old(vertices)|;
      SetTriangle(baseA, baseB, baseC);
      SetTriangle(baseA, baseC, top);
      IndicesConcat(n, 3, 3);
      SetTriangle(baseA, top, baseB);
      IndicesConcat(n, 6, 3);
      SetTriangle(baseB, top, baseC);
      IndicesConcat(n, 9, 3);
      if old(Valid()) {
        IndicesConcat(0, n, 12);
      }
    }

    method GeneratePyramid(origin: PolarVector, radius: real)
      modifies this, random
      ensures random.drawn == old(random.drawn) + 5
      ensures vertices == old(vertices) + Faces(SamplePyramid(origin, radius, old(random.drawn)))
      ensures triangles == old(triangles) + Indices(|old(vertices)|, 12)
      ensures |vertices| == |old(vertices)| + 12
      ensures old(Valid()) ==> Valid()
    {
      ghost var p := SamplePyramid(origin, radius, random.drawn);
      var pointB := system.GetPointOnArc(radius, origin.azimuth, origin.azimuth + range, random);
      assert pointB == p.pointB;
      var pointC := system.GetPointOnArc(radius, origin.azimuth - range, origin.azimuth, random);
      assert pointC == p.pointC;
      var top := Centroid(origin.cartesian, pointB.cartesian, pointC.cartesian);
      ghost var d := random.drawn;
      var dx := random.Range(-maxTopDisplacement, maxTopDisplacement);
      assert dx == random.draws(d, -maxTopDisplacement, maxTopDisplacement);
      var dy := random.Range(-heightDeviation, heightDeviation);
      assert dy == random.draws(d + 1, -heightDeviation, heightDeviation);
      var dz := random.Range(-maxTopDisplacement, maxTopDisplacement);
      assert dz == random.draws(d + 2, -maxTopDisplacement, maxTopDisplacement);
      var topDisplacement := Vec3(dx, averageHeight + dy, dz);
      assert top == Centroid(p.origin.cartesian, p.pointB.cartesian, p.pointC.cartesian);
      assert topDisplacement == Shift(d);
      assert Add(top, topDisplacement) == p.top;
      SetPyramid(origin.cartesian, pointB.cartesian, pointC.cartesian, Add(top, topDisplacement));
      assert PyramidVertices(origin.cartesian, pointB.cartesian, pointC.cartesian, Add(top, topDisplacement)) == Faces(p);
    }

    /** The body of `GenerateMesh`'s inner loop in ring `i`: a point on the
        inner circle, then the pyramid standing on it. */
    method GenerateRingPyramid(i: int32, ghost faces: Placement -> seq<Vec3>)
      requires Builds(faces)
      modifies this, random
      ensures random.drawn == old(random.drawn) + 6
      ensures vertices == old(vertices) + faces(Placement(i, old(random.drawn)))
      ensures |vertices| == |old(vertices)| + 12
      ensures triangles == old(triangles) + Indices(|old(vertices)|, 12)
    {
      ghost var db := random.drawn;
      var origin := system.GetPointOnCircle(InnerRadius(i), random);
      RingPyramidFrom(i, db, origin);
      GeneratePyramid(origin, OuterRadius(i));
    }

    /** The body of `GenerateMesh`'s outer loop for ring `i`: its inner
        loop generates the `i` pyramids of the ring. */
    method GenerateRing(i: int32, ghost faces: Placement -> seq<Vec3>)
      requires i >= 1 && Builds(faces)
      modifies this, random
      ensures random.drawn == old(random.drawn) + 6 * i as int
      ensures vertices == old(vertices) + FacesOf(faces, RingPlacements(i, old(random.drawn), i as int))
      ensures |vertices| == |old(vertices)| + 12 * i as int
      ensures triangles == old(triangles) + Indices(|old(vertices)|, 12 * i as int)
    {
      ghost var v0, t0 := vertices, triangles;
      ghost var d0, n0 := random.drawn, |vertices|;
      ghost var m: nat := 0;
      var j: int32 := 0;
      NoPlacements(faces, v0, i, d0);
      NoIndices(t0, n0);
      while j < i
        invariant 0 <= j <= i && m == 12 * j as int
        invariant random.drawn == d0 + 6 * j as int
        invariant vertices == v0 + FacesOf(faces, RingPlacements(i, d0, j as int))
        invariant |vertices| == n0 + m
        invariant triangles == t0 + Indices(n0, m)
      {
        ghost var vb, tb, nb := vertices, triangles, |vertices|;
        GenerateRingPyramid(i, faces);
        RingStep(faces, v0, i, d0, j as int, vb, vertices);
        AppendIndices(t0, n0, m, nb, 12, m + 12, tb, triangles);
        j, m := j + 1, m + 12;
      }
      assert j == i;
    }

    /** One round of `GenerateMesh`'s outer loop: ring `i`, generated after
        the pyramids placed at `built`. */
    method AddRing(i: int32, ghost faces: Placement -> seq<Vec3>, ghost v0: seq<Vec3>, ghost t0: seq<int>,
                   ghost n0: nat, ghost d0: nat, ghost built: seq<Placement>, ghost m: nat)
      requires 1 <= i <= count < 0x4000_0000 && Builds(faces)
      requires built + MeshPlacements(i as int, random.drawn) == MeshPlacements(1, d0)
      requires random.drawn == d0 + 6 * |built| && m == 12 * |built|
      requires |vertices| == n0 + m
      requires vertices == v0 + FacesOf(faces, built)
      requires triangles == t0 + Indices(n0, m)
      modifies this, random
      ensures built + RingPlacements(i, old(random.drawn), i as int) + MeshPlacements((i + i) as int, random.drawn) == MeshPlacements(1, d0)
      ensures random.drawn == d0 + 6 * |built + RingPlacements(i, old(random.drawn), i as int)|
      ensures |RingPlacements(i, old(random.drawn), i as int)| == i as int
      ensures |vertices| == n0 + (m + 12 * i as int)
      ensures vertices == v0 + FacesOf(faces, built + RingPlacements(i, old(random.drawn), i as int))
      ensures triangles == t0 + Indices(n0, m + 12 * i as int)
    {
      ghost var dr := random.drawn;
      ghost var ring := RingPlacements(i, dr, i as int);
      ghost var vb, tb, nb := vertices, triangles, |vertices|;
      GenerateRing(i, faces);
      AppendIndices(t0, n0, m, nb, 12 * i as int, m + 12 * i as int, tb, triangles);
      AppendFaces(faces, v0, built, ring, vb, vertices);
      MeshStep(d0, built, i as int, dr, ring, (i + i) as int, random.drawn);
    }

    /** The loop of `GenerateMesh`: rings 1, 2, 4, ... up to `count`. */
    method GenerateRings(ghost faces: Placement -> seq<Vec3>)
      requires count < 0x4000_0000 && Builds(faces)
      modifies this, random
      ensures vertices == old(vertices) + FacesOf(faces, MeshPlacements(1, old(random.drawn)))
      ensures |vertices| == |old(vertices)| + 12 * |MeshPlacements(1, old(random.drawn))|
      ensures triangles == old(triangles) + Indices(|old(vertices)|, 12 * |MeshPlacements(1, old(random.drawn))|)
      ensures random.drawn == old(random.drawn) + 6 * |MeshPlacements(1, old(random.drawn))|
    {
      ghost var v0, t0 := vertices, triangles;
      ghost var d0, n0 := random.drawn, |vertices|;
      ghost var built: seq<Placement> := [];
      ghost var m: nat := 0;
      var i: int32 := 1;
      EmptyPrefix(MeshPlacements(1, d0));
      NoFaces(faces, v0);
      NoIndices(t0, n0);
      while i <= count
        invariant 1 <= i as int
        invariant built + MeshPlacements(i as int, random.drawn) == MeshPlacements(1, d0)
        invariant random.drawn == d0 + 6 * |built| && m == 12 * |built|
        invariant |vertices| == n0 + m
        invariant vertices == v0 + FacesOf(faces, built)
        invariant triangles == t0 + Indices(n0, m)
        decreases count as int - i as int
      {
        ghost var ring := RingPlacements(i, random.drawn, i as int);
        AddRing(i, faces, v0, t0, n0, d0, built, m);
        built, m := built + ring, m + 12 * i as int;
        i := i + i;
      }
      MeshComplete(built, i as int, random.drawn, d0);
    }

    /** `GenerateMesh()`: appends the pyramids of rings 1, 2, 4, ... up to
        `count`, `i` of them in ring `i`. */
    method GenerateMesh()
      requires count < 0x4000_0000
      modifies this, random
      ensures vertices == old(vertices) + FacesOf(FacesAt(), MeshPlacements(1, old(random.drawn)))
      ensures |vertices| == |old(vertices)| + 12 * PyramidCount(count as int)
      ensures triangles == old(triangles) + Indices(|old(vertices)|, 12 * PyramidCount(count as int))
      ensures random.drawn == old(random.drawn) + 6 * PyramidCount(count as int)
      ensures count <= 0 ==> vertices == old(vertices) && triangles == old(triangles)
      ensures old(Valid()) ==> Valid()
    {
      ghost var v0, t0, n0 := vertices, triangles, |vertices|;
      MeshCount(random.drawn);
      NoFaces(FacesAt(), v0);
      NoIndices(t0, n0);
      FacesAtBuilds();
      GenerateRings(FacesAt());
      if old(Valid()) {
        IndicesConcat(0, n0, 12 * PyramidCount(count as int));
      }
    }
  }
}
