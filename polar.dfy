/** Polar vectors around a pole and the polar system that samples them. */
module PolarGeometry {
  import opened Vectors
  import opened Randomness

  /** A point in polar form with the Cartesian forms computed when it is made.
      `cartesian` is relative to the pole, `worldCartesian` to the world origin. */
  datatype PolarVector = PolarVector(radius: real, azimuth: real, cartesian: Vec3, worldCartesian: Vec3)

  /** `(radius * cos(azimuth), 0, radius * sin(azimuth))`. */
  function Planar(trig: Trig, radius: real, azimuth: real): Vec3 {
    Vec3(radius * trig.cos(azimuth), 0.0, radius * trig.sin(azimuth))
  }

  /** The constructor `PolarVector(radius, azimuth, pole)`. */
  function FromPolarAround(trig: Trig, radius: real, azimuth: real, pole: PolarVector): PolarVector {
    var c := Planar(trig, radius, azimuth);
    PolarVector(radius, azimuth, c, Add(pole.cartesian, c))
  }

  /** A vector built around a pole lies `radius` away from it: its
      pole-relative form has length `radius`, and so does the difference
      between its world position and the pole's. */
  lemma FromPolarAroundDistance(trig: Trig, radius: real, azimuth: real, pole: PolarVector)
    requires OnUnitCircle(trig)
    ensures var v := FromPolarAround(trig, radius, azimuth, pole);
      && SqNorm(v.cartesian) == radius * radius
      && SqNorm(Sub(v.worldCartesian, pole.cartesian)) == radius * radius
  {
  }

  /** A coordinate system with a pole fixed at construction. */
  class PolarSystem {
    const pole: PolarVector
    const trig: Trig

    constructor (pole: PolarVector, trig: Trig)
      ensures this.pole == pole && this.trig == trig
    {
      this.pole := pole;
      this.trig := trig;
    }

    /** The vector at `radius` and `azimuth` around this system's pole. */
    function PointAt(radius: real, azimuth: real): PolarVector {
      FromPolarAround(trig, radius, azimuth, pole)
    }

    /** `GetPointOnCircle(radius)`: azimuth drawn from [0, 2 pi]. */
    method GetPointOnCircle(radius: real, random: RandomSource) returns (p: PolarVector)
      modifies random
      ensures random.drawn == old(random.drawn) + 1
      ensures p == PointAt(radius, random.draws(old(random.drawn), 0.0, 2.0 * PI))
      ensures p.radius == radius
      ensures InRange(random.draws) ==> 0.0 <= p.azimuth <= 2.0 * PI
      ensures OnUnitCircle(trig) ==> SqNorm(Sub(p.worldCartesian, pole.cartesian)) == radius * radius
    {
      var azimuth := random.Range(0.0, 2.0 * PI);
      p := FromPolarAround(trig, radius, azimuth, pole);
      if OnUnitCircle(trig) {
        FromPolarAroundDistance(trig, radius, azimuth, pole);
      }
    }

    /** `GetPointOnCircle(radius, fromAzimuth, toAzimuth)`: azimuth drawn
        between the two bounds. */
    method GetPointOnArc(radius: real, fromAzimuth: real, toAzimuth: real, random: RandomSource)
      returns (p: PolarVector)
      modifies random
      ensures random.drawn == old(random.drawn) + 1
      ensures p == PointAt(radius, random.draws(old(random.drawn), fromAzimuth, toAzimuth))
      ensures p.radius == radius
      ensures InRange(random.draws) ==> Between(p.azimuth, fromAzimuth, toAzimuth)
      ensures OnUnitCircle(trig) ==> SqNorm(Sub(p.worldCartesian, pole.cartesian)) == radius * radius
    {
      var azimuth := random.Range(fromAzimuth, toAzimuth);
      p := FromPolarAround(trig, radius, azimuth, pole);
      if OnUnitCircle(trig) {
        FromPolarAroundDistance(trig, radius, azimuth, pole);
      }
    }
  }
}
