/** Three-component real vectors, the squared distance every comparison in the
    simulation uses, and the Option type for "no result". */
module Geometry {

  datatype Option<T> = None | Some(value: T)

  /** A point or a velocity in simulation space. JavaScript numbers are
      modelled as exact reals; only +, -, * and / appear in the core. */
  datatype Vec3 = Vec3(x: real, y: real, z: real)

  const Zero: Vec3 := Vec3(0.0, 0.0, 0.0)

  /** The "no candidate yet" distance, 1e30, that the nearest-point scans
      start from. */
  const Far: real := 1000000000000000000000000000000.0

  function Add(a: Vec3, b: Vec3): Vec3 {
    Vec3(a.x + b.x, a.y + b.y, a.z + b.z)
  }

  /** a - b */
  function Sub(a: Vec3, b: Vec3): Vec3 {
    Vec3(a.x - b.x, a.y - b.y, a.z - b.z)
  }

  function Scale(a: Vec3, k: real): Vec3 {
    Vec3(a.x * k, a.y * k, a.z * k)
  }

  /** Component-wise division, as the source divides each coordinate. */
  function Div(a: Vec3, c: real): Vec3
    requires c != 0.0
  {
    Vec3(a.x / c, a.y / c, a.z / c)
  }

  function Dot(a: Vec3, b: Vec3): real {
    a.x * b.x + a.y * b.y + a.z * b.z
  }

  /** Squared Euclidean distance from a to b, written as the source writes it:
      dx = b.x - a.x, ..., dx*dx + dy*dy + dz*dz. */
  function Dist2(a: Vec3, b: Vec3): (d: real)
    ensures d >= 0.0
  {
    var dx, dy, dz := b.x - a.x, b.y - a.y, b.z - a.z;
    dx * dx + dy * dy + dz * dz
  }

  lemma Dist2Symmetric(a: Vec3, b: Vec3)
    ensures Dist2(a, b) == Dist2(b, a)
  {
  }

  /** The split test divides the random axis by its length before taking a
      dot product; dividing by any positive length keeps the sign, so the
      model may test the sign against the raw axis. */
  lemma NormalisedAxisSign(v: Vec3, a: Vec3, len: real)
    requires len > 0.0
    ensures Dot(v, Div(a, len)) < 0.0 <==> Dot(v, a) < 0.0
  {
    assert Dot(v, Div(a, len)) == Dot(v, a) / len;
  }
}
