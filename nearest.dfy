/** The nearest point of the Lorenz path to a boid: a linear scan keeping the
    first point whose squared distance beats the best so far, starting from
    the sentinel 1e30. */
module NearestPath {
  import opened Geometry

  /** The scan from index k on, with the best index and distance so far.
      If no later point beats bestD the best index is kept; otherwise the
      result is the first later point of least squared distance. */
  function Scan(path: seq<Vec3>, b: Vec3, k: nat, best: nat, bestD: real): (r: nat)
    requires best < |path| && k <= |path|
    ensures r < |path|
    ensures (forall i | k <= i < |path| :: Dist2(b, path[i]) >= bestD) ==> r == best
    ensures (exists i | k <= i < |path| :: Dist2(b, path[i]) < bestD) ==>
              k <= r && Dist2(b, path[r]) < bestD &&
              (forall i | k <= i < |path| :: Dist2(b, path[r]) <= Dist2(b, path[i])) &&
              (forall i | k <= i < r :: Dist2(b, path[r]) < Dist2(b, path[i]))
    decreases |path| - k
  {
    if k == |path| then best
    else
      var d := Dist2(b, path[k]);
      if d < bestD then Scan(path, b, k + 1, k, d) else Scan(path, b, k + 1, best, bestD)
  }

  /** The index the scan settles on. When some point is nearer than 1e30 it
      is a point of least squared distance, and the earliest such point
      (ties go to the lower index because the comparison is strict). When
      every point is at least 1e30 away it is index 0. */
  function NearestIndex(path: seq<Vec3>, b: Vec3): (r: nat)
    requires |path| >= 1
    ensures r < |path|
    ensures (exists i | 0 <= i < |path| :: Dist2(b, path[i]) < Far) ==>
              (forall i | 0 <= i < |path| :: Dist2(b, path[r]) <= Dist2(b, path[i])) &&
              (forall i | 0 <= i < r :: Dist2(b, path[r]) < Dist2(b, path[i]))
    ensures (forall i | 0 <= i < |path| :: Dist2(b, path[i]) >= Far) ==> r == 0
  {
    Scan(path, b, 0, 0, Far)
  }

  /** murmurNearestOnLorenzPath: nothing for a path of fewer than two points,
      otherwise the point of the path nearest to b. */
  function NearestOnPath(b: Vec3, path: seq<Vec3>): (r: Option<Vec3>)
    ensures r.None? <==> |path| < 2
    ensures r.Some? ==> r.value in path
    ensures r.Some? && (exists i | 0 <= i < |path| :: Dist2(b, path[i]) < Far) ==>
              forall i | 0 <= i < |path| :: Dist2(b, r.value) <= Dist2(b, path[i])
    ensures r.Some? && (forall i | 0 <= i < |path| :: Dist2(b, path[i]) >= Far) ==> r.value == path[0]
  {
    if |path| < 2 then None else Some(path[NearestIndex(path, b)])
  }
}
