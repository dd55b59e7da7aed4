/** The chaotic field behind the murmuration: the Lorenz system advanced by
    explicit Euler steps, its map into the container ("cube space"), and the
    bounded path of mapped points that boids are pulled towards. */
module Lorenz {
  import opened Geometry
  import Fifo

  const Sigma: real := 10.0
  const Rho: real := 28.0
  const Beta: real := 8.0 / 3.0
  /** Values above 1 make the path use more of the container. */
  const Fill: real := 1.05
  /** Capacity of the path buffer. */
  const PathPoints: nat := 80
  /** The phase every murmuration starts from. */
  const StartPhase: Vec3 := Vec3(5.0, 5.0, 5.0)

  /** dx = sigma (y - x), dy = x (rho - z) - y, dz = x y - beta z. */
  function Derivative(p: Vec3): Vec3 {
    Vec3(Sigma * (p.y - p.x), p.x * (Rho - p.z) - p.y, p.x * p.y - Beta * p.z)
  }

  /** One explicit Euler step of length dt. */
  function EulerStep(p: Vec3, dt: real): Vec3 {
    Add(p, Scale(Derivative(p), dt))
  }

  /** k Euler steps of length h. */
  function Orbit(p: Vec3, h: real, k: nat): Vec3 {
    if k == 0 then p else EulerStep(Orbit(p, h, k - 1), h)
  }

  /** The derivative at the starting phase (5, 5, 5). */
  lemma DerivativeAtStart()
    ensures Derivative(StartPhase) == Vec3(0.0, 110.0, 35.0 / 3.0)
  {
  }

  /** The derivative vanishes exactly at the origin and at the two points
      x = y = +-sqrt(beta (rho - 1)) = +-sqrt(72), z = rho - 1 = 27. */
  lemma EquilibriumIff(p: Vec3)
    ensures Derivative(p) == Zero <==>
            p == Zero || (p.x == p.y && p.z == 27.0 && p.x * p.x == 72.0)
  {
    var x, y, z := p.x, p.y, p.z;
    if Derivative(p) == Zero {
      assert 10.0 * (y - x) == 0.0;
      assert x == y;
      assert x * (28.0 - z) - x == 0.0;
      assert x * (27.0 - z) == 0.0;
      assert x * x - (8.0 / 3.0) * z == 0.0;
      if x == 0.0 {
        assert z == 0.0;
      } else {
        assert 27.0 - z == 0.0;
      }
    }
    if x == y && z == 27.0 && x * x == 72.0 {
      assert x * (28.0 - z) - y == 0.0;
      assert x * y - Beta * z == 72.0 - 72.0;
    }
  }

  /** An equilibrium is never moved by any number of Euler steps. */
  lemma {:induction false} OrbitOfEquilibrium(p: Vec3, h: real, k: nat)
    requires Derivative(p) == Zero
    ensures Orbit(p, h, k) == p
  {
    if k > 0 {
      OrbitOfEquilibrium(p, h, k - 1);
    }
  }

  /** Lorenz coordinates to container coordinates: x and the Lorenz y are
      scaled horizontally, the Lorenz z (centred on 25) vertically. */
  function ToCube(l: Vec3, extent: real, extentY: real): Vec3 {
    var scaleXZ := (extent * Fill) / 20.0;
    var scaleY := (extentY * Fill) / 25.0;
    Vec3((l.x / 20.0) * scaleXZ, ((l.z - 25.0) / 25.0) * scaleY, (l.y / 20.0) * scaleXZ)
  }

  /** The inverse map, defined when both extents are non-zero. */
  function FromCube(c: Vec3, extent: real, extentY: real): Vec3
    requires extent != 0.0 && extentY != 0.0
  {
    var scaleXZ := (extent * Fill) / 20.0;
    var scaleY := (extentY * Fill) / 25.0;
    Vec3(c.x / scaleXZ * 20.0, c.z / scaleXZ * 20.0, c.y / scaleY * 25.0 + 25.0)
  }

  /** ToCube is a bijection for non-zero extents. */
  lemma CubeRoundTrip(l: Vec3, c: Vec3, extent: real, extentY: real)
    requires extent != 0.0 && extentY != 0.0
    ensures FromCube(ToCube(l, extent, extentY), extent, extentY) == l
    ensures ToCube(FromCube(c, extent, extentY), extent, extentY) == c
  {
  }

  /** Where the attractor lives (|x|, |y| <= 20, 0 <= z <= 50) maps inside
      the container enlarged by the fill factor. */
  lemma ToCubeBounds(l: Vec3, extent: real, extentY: real)
    requires extent >= 0.0 && extentY >= 0.0
    requires -20.0 <= l.x <= 20.0 && -20.0 <= l.y <= 20.0 && 0.0 <= l.z <= 50.0
    ensures var c, bxz, bh := ToCube(l, extent, extentY), Fill * extent / 20.0, Fill * extentY / 25.0;
      -bxz <= c.x <= bxz && -bh <= c.y <= bh && -bxz <= c.z <= bxz
  {
    var scaleXZ := (extent * Fill) / 20.0;
    var scaleY := (extentY * Fill) / 25.0;
    var c := ToCube(l, extent, extentY);
    var ux, uz, uy := l.x / 20.0, l.y / 20.0, (l.z - 25.0) / 25.0;
    assert c == Vec3(ux * scaleXZ, uy * scaleY, uz * scaleXZ);
    UnitTimes(ux, scaleXZ);
    UnitTimes(uz, scaleXZ);
    UnitTimes(uy, scaleY);
  }

  lemma UnitTimes(u: real, k: real)
    requires -1.0 <= u <= 1.0 && k >= 0.0
    ensures -k <= u * k <= k
  {
  }

  /** The Lorenz phase and the path of recent mapped points that one
      murmuration keeps between frames. */
  class LorenzField {
    var phase: Vec3
    var path: seq<Vec3>

    /** A fresh murmuration: phase (5, 5, 5), empty path. */
    constructor ()
      ensures phase == StartPhase && path == []
    {
      phase := StartPhase;
      path := [];
    }

    /** One Euler step of the phase in place; the three increments are all
        computed from the phase before the step. */
    method Advance(dt: real)
      modifies this
      ensures phase == EulerStep(old(phase), dt)
      ensures path == old(path)
    {
      var d := Derivative(phase);
      phase := Add(phase, Scale(d, dt));
    }

    /** The per-frame update: three Euler steps of dt/3, each followed by
        pushing the mapped point onto the path and dropping the oldest point
        beyond 80. The path ends up holding the last 80 points ever mapped. */
    method Step(dt: real, extent: real, extentY: real)
      requires |path| <= PathPoints
      modifies this
      ensures phase == Orbit(old(phase), dt / 3.0, 3)
      ensures path == Fifo.Window(old(path) + [ToCube(Orbit(old(phase), dt / 3.0, 1), extent, extentY),
                                               ToCube(Orbit(old(phase), dt / 3.0, 2), extent, extentY),
                                               ToCube(Orbit(old(phase), dt / 3.0, 3), extent, extentY)], PathPoints)
      ensures |path| <= PathPoints
    {
      ghost var p0, h := phase, dt / 3.0;
      ghost var pts: seq<Vec3> := [];
      var step := 0;
      while step < 3
        invariant 0 <= step <= 3
        invariant phase == Orbit(p0, h, step)
        invariant |pts| == step
        invariant forall k | 0 <= k < step :: pts[k] == ToCube(Orbit(p0, h, k + 1), extent, extentY)
        invariant path == Fifo.Window(old(path) + pts, PathPoints)
        invariant |path| <= PathPoints
      {
        Advance(dt / 3.0);
        var pt := ToCube(phase, extent, extentY);
        Fifo.WindowOfWindow(old(path) + pts, [pt], PathPoints);
        assert old(path) + pts + [pt] == old(path) + (pts + [pt]);
        path := path + [pt];
        if |path| > PathPoints {
          path := path[1..];
        }
        pts := pts + [pt];
        step := step + 1;
      }
    }
  }
}
