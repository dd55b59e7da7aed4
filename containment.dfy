/** The box and pyramid branches of boid containment: each clamps a
    coordinate that left its range back onto the boundary and points that
    velocity component inwards. */
module Containment {
  import opened Geometry
  import opened Boids

  /** One coordinate with its velocity component. */
  datatype Axis = Axis(p: real, v: real)

  function Abs(v: real): (a: real)
    ensures a >= 0.0 && (a == v || a == -v)
  {
    if v < 0.0 then -v else v
  }

  /** The two tests the source applies to one axis, in order: below lo moves
      to lo with a non-negative velocity, then above hi moves to hi with a
      non-positive velocity. For a non-empty range the result lies in it, an
      in-range axis is untouched, and a clamped axis keeps its speed but
      heads back inside. */
  function ClampAxis(p: real, v: real, lo: real, hi: real): (r: Axis)
    ensures lo <= hi ==> lo <= r.p <= hi
    ensures lo <= p <= hi ==> r == Axis(p, v)
    ensures Abs(r.v) == Abs(v)
    ensures lo <= hi && p < lo ==> r.p == lo && r.v >= 0.0
    ensures lo <= hi && p > hi ==> r.p == hi && r.v <= 0.0
  {
    var a := if p < lo then Axis(lo, Abs(v)) else Axis(p, v);
    if a.p > hi then Axis(hi, -Abs(a.v)) else a
  }

  ghost predicate InBox(q: Vec3, extent: real, extentY: real) {
    -extent <= q.x <= extent && -extentY <= q.y <= extentY && -extent <= q.z <= extent
  }

  /** The two in-place tests on one coordinate and its velocity component,
      as the container branches write them. */
  method ClampInPlace(p: real, v: real, lo: real, hi: real) returns (r: Axis)
    ensures r == ClampAxis(p, v, lo, hi)
  {
    var p', v' := p, v;
    if p' < lo { p' := lo; v' := Abs(v'); }
    if p' > hi { p' := hi; v' := -Abs(v'); }
    r := Axis(p', v');
  }

  /** The 'box' container: x and z in [-extent, extent], y in
      [-extentY, extentY]. The trail is not touched. */
  method ContainBox(b: Boid, extent: real, extentY: real)
    modifies b
    ensures Axis(b.x, b.vx) == ClampAxis(old(b.x), old(b.vx), -extent, extent)
    ensures Axis(b.y, b.vy) == ClampAxis(old(b.y), old(b.vy), -extentY, extentY)
    ensures Axis(b.z, b.vz) == ClampAxis(old(b.z), old(b.vz), -extent, extent)
    ensures b.trail == old(b.trail)
    ensures extent >= 0.0 && extentY >= 0.0 ==> InBox(b.Position(), extent, extentY)
  {
    var ax := ClampInPlace(b.x, b.vx, -extent, extent);
    b.x, b.vx := ax.p, ax.v;
    var ay := ClampInPlace(b.y, b.vy, -extentY, extentY);
    b.y, b.vy := ay.p, ay.v;
    var az := ClampInPlace(b.z, b.vz, -extent, extent);
    b.z, b.vz := az.p, az.v;
  }

  /** Half-width of the square pyramid cross-section at height y: extent at
      the base (y = -extentY), 0 at the apex (y = extentY). */
  function HalfWidth(extent: real, extentY: real, y: real): real
    requires extentY != 0.0
  {
    extent * (extentY - y) / (2.0 * extentY)
  }

  lemma HalfWidthRange(extent: real, extentY: real, y: real)
    requires extent >= 0.0 && extentY > 0.0 && -extentY <= y <= extentY
    ensures 0.0 <= HalfWidth(extent, extentY, y) <= extent
    ensures y == extentY ==> HalfWidth(extent, extentY, y) == 0.0
    ensures y == -extentY ==> HalfWidth(extent, extentY, y) == extent
  {
    var f := (extentY - y) / (2.0 * extentY);
    assert 0.0 <= f <= 1.0;
    assert HalfWidth(extent, extentY, y) == extent * f;
  }

  ghost predicate InPyramid(q: Vec3, extent: real, extentY: real)
    requires extentY > 0.0
  {
    var w := HalfWidth(extent, extentY, q.y);
    -extentY <= q.y <= extentY && -w <= q.x <= w && -w <= q.z <= w
  }

  /** The 'pyramid' container: first y, then x and z against the half-width
      at the clamped height. */
  method ContainPyramid(b: Boid, extent: real, extentY: real)
    requires extentY > 0.0
    modifies b
    ensures Axis(b.y, b.vy) == ClampAxis(old(b.y), old(b.vy), -extentY, extentY)
    ensures var w := HalfWidth(extent, extentY, b.y);
      Axis(b.x, b.vx) == ClampAxis(old(b.x), old(b.vx), -w, w) &&
      Axis(b.z, b.vz) == ClampAxis(old(b.z), old(b.vz), -w, w)
    ensures b.trail == old(b.trail)
    ensures extent >= 0.0 ==> InPyramid(b.Position(), extent, extentY)
  {
    var ay := ClampInPlace(b.y, b.vy, -extentY, extentY);
    b.y, b.vy := ay.p, ay.v;
    var w := HalfWidth(extent, extentY, b.y);
    var ax := ClampInPlace(b.x, b.vx, -w, w);
    b.x, b.vx := ax.p, ax.v;
    var az := ClampInPlace(b.z, b.vz, -w, w);
    b.z, b.vz := az.p, az.v;
    if extent >= 0.0 {
      HalfWidthRange(extent, extentY, b.y);
    }
  }
}
