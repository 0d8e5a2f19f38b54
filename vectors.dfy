/** Unity's `Vector3`, over the reals, and the two `Mathf` functions the
    polar layer needs. `Mathf.Cos` and `Mathf.Sin` are foreign code, so the
    model takes them as a parameter instead of defining them. */
module Vectors {

  datatype Vec3 = Vec3(x: real, y: real, z: real)

  /** Component-wise `a + b`. */
  function Add(a: Vec3, b: Vec3): Vec3 {
    Vec3(a.x + b.x, a.y + b.y, a.z + b.z)
  }

  /** Component-wise `a / k`. */
  function Div(a: Vec3, k: real): Vec3
    requires k != 0.0
  {
    Vec3(a.x / k, a.y / k, a.z / k)
  }

  /** Component-wise `a - b`. */
  function Sub(a: Vec3, b: Vec3): Vec3 {
    Vec3(a.x - b.x, a.y - b.y, a.z - b.z)
  }

  /** The squared length of `a`. */
  function SqNorm(a: Vec3): real {
    a.x * a.x + a.y * a.y + a.z * a.z
  }

  /** `(a + b + c) / 3`. */
  function Centroid(a: Vec3, b: Vec3, c: Vec3): Vec3 {
    Div(Add(Add(a, b), c), 3.0)
  }

  /** The cosine and sine used to turn polar coordinates into Cartesian ones. */
  datatype Trig = Trig(cos: real -> real, sin: real -> real)

  /** The identity `cos^2 + sin^2 == 1` that the two functions satisfy. */
  ghost predicate OnUnitCircle(trig: Trig) {
    forall a :: trig.cos(a) * trig.cos(a) + trig.sin(a) * trig.sin(a) == 1.0
  }

  /** `Mathf.PI` as a single-precision constant. */
  const PI: real := 3.14159274
}
