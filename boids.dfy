/** A boid's motion state: position, velocity and its trail of recent
    positions. The boid's spark fields are kept beside it, in the spark
    module, as one array indexed like the boids. */
module Boids {
  import opened Geometry
  import Fifo

  /** Capacity of a boid's trail. */
  const TrailLength: nat := 10

  class Boid {
    var x: real
    var y: real
    var z: real
    var vx: real
    var vy: real
    var vz: real
    var trail: seq<Vec3>

    /** A boid as created when a murmuration is (re)initialised: the drawn
        position and velocity, and an empty trail. */
    constructor (p: Vec3, v: Vec3)
      ensures Position() == p && Velocity() == v && trail == []
    {
      x, y, z := p.x, p.y, p.z;
      vx, vy, vz := v.x, v.y, v.z;
      trail := [];
    }

    function Position(): Vec3
      reads this
    {
      Vec3(x, y, z)
    }

    function Velocity(): Vec3
      reads this
    {
      Vec3(vx, vy, vz)
    }

    /** End of a boid's step: push the current position onto the trail and
        drop the oldest entry beyond 10. */
    method RecordTrail()
      requires |trail| <= TrailLength
      modifies this`trail
      ensures trail == Fifo.Window(old(trail) + [Position()], TrailLength)
      ensures |trail| <= TrailLength && trail[|trail| - 1] == Position()
    {
      trail := trail + [Position()];
      if |trail| > TrailLength {
        trail := trail[1..];
      }
    }
  }
}
