/** murmurClusterBoids: the partition of the boids into swarms, in the
    source's five phases - connected components over the boids, merging of
    components whose centroids are close, splitting of large spread-out
    swarms along a random plane, fading of small swarms into their nearest
    neighbour, and compaction to dense ids with fresh counts and centroids. */
module Swarms {
  import opened Geometry
  import opened SwarmStats
  import opened Connectivity

  const SplitCountThreshold: nat := 70
  const SplitSpreadThreshold: real := 0.25
  const FadeCountThreshold: nat := 8

  // ---------------------------------------------------------------------
  // Phases 1 and 2: components and merging

  /** comps numbers the classes of "linked by a chain of points closer
      than r". */
  ghost predicate ComponentIds(pos: seq<Vec3>, r: real, comps: seq<nat>) {
    |comps| == |pos| &&
    forall a, b | 0 <= a < |pos| && 0 <= b < |pos| :: comps[a] == comps[b] <==> Linked(pos, r * r, a, b)
  }

  /** merged joins the components whose centroids are chained closer than mr. */
  ghost predicate MergedIds(pos: seq<Vec3>, comps: seq<nat>, kc: nat, mr: real, merged: seq<nat>) {
    |comps| == |pos| && |merged| == |pos| && IdsBelow(comps, kc) &&
    forall a, b | 0 <= a < |pos| && 0 <= b < |pos| ::
      merged[a] == merged[b] <==> Linked(CentroidsOf(pos, comps, kc), mr * mr, comps[a], comps[b])
  }

  /** split keeps the ids of the boids that do not move, and gives the movers
      new ids from km up, one per swarm they left. */
  ghost predicate SplitIds(pos: seq<Vec3>, merged: seq<nat>, km: nat, extent: real, axis: nat -> Vec3, split: seq<nat>, ks: nat) {
    |merged| == |pos| && |split| == |pos| && km <= ks && IdsBelow(split, ks) &&
    (forall i | 0 <= i < |pos| :: !Moves(pos, merged, extent, axis, i) ==> split[i] == merged[i]) &&
    (forall i | 0 <= i < |pos| :: Moves(pos, merged, extent, axis, i) ==> km <= split[i]) &&
    forall a, b | 0 <= a < |pos| && 0 <= b < |pos| && Moves(pos, merged, extent, axis, a) && Moves(pos, merged, extent, axis, b) ::
      split[a] == split[b] <==> merged[a] == merged[b]
  }

  /** Boids linked by a chain of points closer than r share an id in ids. */
  ghost predicate KeepsLinked(pos: seq<Vec3>, r: real, ids: seq<nat>)
    requires |ids| == |pos|
  {
    forall a, b | 0 <= a < |pos| && 0 <= b < |pos| && Linked(pos, r * r, a, b) :: ids[a] == ids[b]
  }

  /** ids2 groups and orders the boids as ids does. */
  ghost predicate SameGrouping(ids: seq<nat>, ids2: seq<nat>) {
    |ids2| == |ids| &&
    forall a, b | 0 <= a < |ids| && 0 <= b < |ids| :: (ids2[a] == ids2[b] <==> ids[a] == ids[b]) && (ids2[a] < ids2[b] <==> ids[a] < ids[b])
  }

  /** Boids closer than r are joined; ids are the components numbered in
      order of first appearance. */
  method ConnectedComponents(pos: seq<Vec3>, r: real) returns (ids: seq<nat>, k: nat)
    ensures IdsBelow(ids, k) && ComponentIds(pos, r, ids)
    ensures forall s | 0 <= s < k :: OccursBefore(ids, s, |ids|)
    ensures forall i, s | 0 <= i < |ids| && 0 <= s < ids[i] :: OccursBefore(ids, s, i)
  {
    var roots := Components(pos, r * r, true);
    ids, k := Relabel(roots);
  }

  /** Swarms whose centroids are chained by distances below mergeR become
      one; the merged swarms are numbered in order of first appearance over
      the boids. */
  method MergeNearby(pos: seq<Vec3>, ids: seq<nat>, k: nat, mergeR: real) returns (ids2: seq<nat>, k2: nat)
    requires |ids| == |pos| && IdsBelow(ids, k)
    ensures IdsBelow(ids2, k2) && MergedIds(pos, ids, k, mergeR, ids2)
    ensures forall s | 0 <= s < k2 :: OccursBefore(ids2, s, |ids2|)
    ensures forall i, s | 0 <= i < |ids2| && 0 <= s < ids2[i] :: OccursBefore(ids2, s, i)
  {
    var cents, counts := Accumulate(pos, ids, k);
    var sroots := Components(cents, mergeR * mergeR, false);
    var labels := seq(|ids|, i requires 0 <= i < |ids| => sroots[ids[i]]);
    ids2, k2 := Relabel(labels);
  }

  // ---------------------------------------------------------------------
  // Phase 3: splitting

  /** The source's `sqrt(variance) < t` for a variance v >= 0, without the
      square root. */
  function SpreadBelow(v: real, t: real): bool {
    t > 0.0 && v < t * t
  }

  /** SpreadBelow agrees with comparing the square root. */
  lemma SpreadBelowIsRootTest(v: real, t: real, root: real)
    requires root >= 0.0 && root * root == v
    ensures SpreadBelow(v, t) <==> root < t
  {
    if root < t {
      MulLe(root, t, root);
      MulStrict(root, t, t);
      calc {
        v;
      ==
        root * root;
      <=
        t * root;
      ==
        root * t;
      <
        t * t;
      }
    } else if t > 0.0 {
      MulLe(t, root, root);
      MulLe(t, root, t);
      assert root * t == t * root;
    }
  }

  lemma MulStrict(x: real, y: real, z: real)
    requires x < y && z > 0.0
    ensures x * z < y * z
  {
    assert (y - x) * z > 0.0;
  }

  lemma MulLe(x: real, y: real, z: real)
    requires x <= y && z >= 0.0
    ensures x * z <= y * z
  {
    assert (y - x) * z >= 0.0;
  }

  /** Swarm s is split: it has at least 70 members and the root mean square
      distance of its members from its centroid is not below a quarter of
      the extent. */
  ghost predicate SplitsSwarm(pos: seq<Vec3>, ids: seq<nat>, s: nat, extent: real)
    requires |pos| == |ids|
  {
    var n := CountOf(ids, s);
    n >= SplitCountThreshold &&
    !SpreadBelow(SpreadSum(pos, ids, s, Centroid(pos, ids, s)) / n as real, extent * SplitSpreadThreshold)
  }

  /** Boid i leaves its swarm: the swarm is split and the boid lies on the
      negative side of the plane through the centroid normal to the swarm's
      random axis. */
  ghost predicate Moves(pos: seq<Vec3>, ids: seq<nat>, extent: real, axis: nat -> Vec3, i: nat)
    requires |pos| == |ids| && i < |ids|
  {
    SplitsSwarm(pos, ids, ids[i], extent) &&
    Dot(Sub(pos[i], Centroid(pos, ids, ids[i])), axis(ids[i])) < 0.0
  }

  /** Sum of squared distances of the members of s from c. */
  method VarianceSum(pos: seq<Vec3>, ids: seq<nat>, s: nat, c: Vec3) returns (v: real)
    requires |pos| == |ids|
    ensures v == SpreadSum(pos, ids, s, c)
  {
    v := 0.0;
    var i := 0;
    while i < |ids|
      invariant 0 <= i <= |ids| && v == SpreadSum(pos[..i], ids[..i], s, c)
    {
      if ids[i] == s {
        v := v + Dist2(c, pos[i]);
      }
      assert ids[..i + 1][..i] == ids[..i] && pos[..i + 1][..i] == pos[..i];
      i := i + 1;
    }
    assert ids[..|ids|] == ids && pos[..|pos|] == pos;
  }

  /** Moves the members of s on the negative side of the plane through c
      normal to a into swarm newId, and counts them. */
  method MoveNegativeSide(pos: seq<Vec3>, ids: seq<nat>, s: nat, c: Vec3, a: Vec3, newId: nat)
    returns (r: seq<nat>, moved: nat)
    requires |pos| == |ids|
    ensures |r| == |ids|
    ensures forall i | 0 <= i < |ids| :: r[i] == if ids[i] == s && Dot(Sub(pos[i], c), a) < 0.0 then newId else ids[i]
    ensures moved > 0 <==> exists i | 0 <= i < |ids| :: ids[i] == s && Dot(Sub(pos[i], c), a) < 0.0
  {
    r := ids;
    moved := 0;
    var i := 0;
    while i < |ids|
      invariant 0 <= i <= |ids| && |r| == |ids|
      invariant forall j | 0 <= j < i :: r[j] == if ids[j] == s && Dot(Sub(pos[j], c), a) < 0.0 then newId else ids[j]
      invariant forall j | i <= j < |ids| :: r[j] == ids[j]
      invariant moved > 0 <==> exists j | 0 <= j < i :: ids[j] == s && Dot(Sub(pos[j], c), a) < 0.0
    {
      if ids[i] == s && Dot(Sub(pos[i], c), a) < 0.0 {
        r := r[i := newId];
        moved := moved + 1;
      }
      i := i + 1;
    }
  }

  /** One swarm's turn in the split pass: when swarm s is split, its
      members on the negative side of the plane through its centroid c
      normal to a get id newId; `used` tells whether any did. */
  method SplitSwarm(pos: seq<Vec3>, ids: seq<nat>, s: nat, c: Vec3, count: nat, extent: real, a: Vec3, newId: nat)
    returns (r: seq<nat>, used: bool)
    requires |pos| == |ids| && count == CountOf(ids, s) && c == Centroid(pos, ids, s)
    ensures |r| == |ids|
    ensures forall i | 0 <= i < |ids| ::
              r[i] == if ids[i] == s && SplitsSwarm(pos, ids, s, extent) && Dot(Sub(pos[i], c), a) < 0.0 then newId else ids[i]
    ensures used <==> exists i | 0 <= i < |ids| :: ids[i] == s && SplitsSwarm(pos, ids, s, extent) && Dot(Sub(pos[i], c), a) < 0.0
  {
    r, used := ids, false;
    if count >= SplitCountThreshold {
      var v := VarianceSum(pos, ids, s, c);
      v := v / count as real;
      if !SpreadBelow(v, extent * SplitSpreadThreshold) {
        var moved;
        r, moved := MoveNegativeSide(pos, ids, s, c, a, newId);
        used := moved > 0;
      }
    }
  }

  /** Which boids the split pass moves. */
  ghost function MovesMask(pos: seq<Vec3>, ids: seq<nat>, extent: real, axis: nat -> Vec3): (mv: seq<bool>)
    requires |pos| == |ids|
    ensures |mv| == |ids| && forall i | 0 <= i < |ids| :: mv[i] == Moves(pos, ids, extent, axis, i)
  {
    seq(|ids|, i requires 0 <= i < |ids| => Moves(pos, ids, extent, axis, i))
  }

  /** For the members of swarm s in a relabelling ids2 that has the same
      members for s as ids, moving is decided by the split test and the
      side of the plane, both computed from ids2. */
  lemma MemberMoves(pos: seq<Vec3>, ids: seq<nat>, ids2: seq<nat>, extent: real, axis: nat -> Vec3, s: nat)
    requires |pos| == |ids| && |ids2| == |ids|
    requires forall i | 0 <= i < |ids| :: (ids[i] == s) == (ids2[i] == s)
    ensures forall i | 0 <= i < |ids| && ids2[i] == s ::
              Moves(pos, ids, extent, axis, i) ==
              (SplitsSwarm(pos, ids2, s, extent) && Dot(Sub(pos[i], Centroid(pos, ids2, s)), axis(s)) < 0.0)
  {
    SameMembers(pos, ids, ids2, s, s, Centroid(pos, ids, s));
  }

  /** The state of the split pass before swarm s, for the boids mv says
      move: origin[u] is the swarm that new id k + u was split from. */
  ghost predicate SplitSoFar(ids: seq<nat>, mv: seq<bool>, k: nat, s: nat, ids2: seq<nat>, origin: seq<nat>) {
    |mv| == |ids| && |ids2| == |ids| &&
    (forall u, w | 0 <= u < w < |origin| :: origin[u] < origin[w]) &&
    (forall u | 0 <= u < |origin| :: origin[u] < s) &&
    (forall t | k <= t < k + |origin| :: OccursBefore(ids2, t, |ids2|)) &&
    forall i | 0 <= i < |ids| ::
      if ids[i] < s && mv[i]
      then k <= ids2[i] < k + |origin| && origin[ids2[i] - k] == ids[i]
      else ids2[i] == ids[i]
  }

  /** Swarm s's turn keeps SplitSoFar. */
  lemma SplitStep(ids: seq<nat>, mv: seq<bool>, k: nat, s: nat, ids2: seq<nat>, origin: seq<nat>, r: seq<nat>, used: bool)
    requires IdsBelow(ids, k) && s < k && SplitSoFar(ids, mv, k, s, ids2, origin)
    requires |r| == |ids2|
    requires forall i | 0 <= i < |ids2| :: r[i] == if ids2[i] == s && mv[i] then k + |origin| else ids2[i]
    requires used <==> exists i | 0 <= i < |ids2| :: ids2[i] == s && mv[i]
    ensures SplitSoFar(ids, mv, k, s + 1, r, if used then origin + [s] else origin)
  {
    var origin2 := if used then origin + [s] else origin;
    forall t | k <= t < k + |origin|
      ensures OccursBefore(r, t, |r|)
    {
      assert OccursBefore(ids2, t, |ids2|);
      var j :| 0 <= j < |ids2| && ids2[j] == t;
      assert r[j] == t;
    }
    if used {
      var j :| 0 <= j < |ids2| && ids2[j] == s && mv[j];
      assert r[j] == k + |origin|;
    }
  }

  /** What SplitSoFar at the end of the pass says about the moved boids. */
  lemma SplitDone(ids: seq<nat>, mv: seq<bool>, k: nat, ids2: seq<nat>, origin: seq<nat>)
    requires IdsBelow(ids, k) && SplitSoFar(ids, mv, k, k, ids2, origin)
    ensures IdsBelow(ids2, k + |origin|)
    ensures forall i | 0 <= i < |ids| :: !mv[i] ==> ids2[i] == ids[i]
    ensures forall i | 0 <= i < |ids| :: mv[i] ==> k <= ids2[i]
    ensures forall i, j | 0 <= i < |ids| && 0 <= j < |ids| && mv[i] && mv[j] :: ids2[i] == ids2[j] <==> ids[i] == ids[j]
    ensures forall i, j | 0 <= i < |ids| && 0 <= j < |ids| && mv[i] && mv[j] :: ids2[i] < ids2[j] <==> ids[i] < ids[j]
  {
    forall i, j | 0 <= i < |ids| && 0 <= j < |ids| && mv[i] && mv[j]
      ensures ids2[i] == ids2[j] <==> ids[i] == ids[j]
      ensures ids2[i] < ids2[j] <==> ids[i] < ids[j]
    {
      var u, w := ids2[i] - k, ids2[j] - k;
      assert origin[u] == ids[i] && origin[w] == ids[j];
    }
  }

  /** The split pass over the swarms present after merging. axis(s) is the
      random direction drawn for swarm s. Boids that do not move keep their
      id; the boids leaving one swarm all get one new id, at least k, and
      the boids leaving different swarms get different ids, numbered in the
      order of the swarms they left; every new id is in use, because a
      split that moves nobody is withdrawn. */
  method SplitLarge(pos: seq<Vec3>, ids: seq<nat>, k: nat, extent: real, axis: nat -> Vec3)
    returns (ids2: seq<nat>, k2: nat)
    requires |ids| == |pos| && IdsBelow(ids, k)
    ensures SplitIds(pos, ids, k, extent, axis, ids2, k2)
    ensures forall i, j | 0 <= i < |ids| && 0 <= j < |ids| && Moves(pos, ids, extent, axis, i) && Moves(pos, ids, extent, axis, j) ::
              ids2[i] < ids2[j] <==> ids[i] < ids[j]
    ensures forall t | k <= t < k2 :: OccursBefore(ids2, t, |ids2|)
  {
    ghost var mv := MovesMask(pos, ids, extent, axis);
    var cents, counts := Accumulate(pos, ids, k);
    ids2 := ids;
    var nextId := k;
    ghost var origin: seq<nat> := [];
    var s := 0;
    while s < k
      invariant 0 <= s <= k && nextId == k + |origin|
      invariant SplitSoFar(ids, mv, k, s, ids2, origin)
    {
      var used;
      ids2, used := SplitTurn(pos, ids, k, extent, axis, mv, ids2, s, cents[s], counts[s], nextId, origin);
      if used {
        // the source pushes a new swarm for every attempted split and pops
        // it again when nobody moved; only the kept ones advance nextId
        nextId := nextId + 1;
        origin := origin + [s];
      }
      s := s + 1;
    }
    k2 := nextId;
    SplitOutcome(pos, ids, k, extent, axis, ids2, origin);
  }

  /** Swarm s's turn of the split pass, on the ids as the earlier turns
      left them; a kept split takes the next new id. */
  method SplitTurn(pos: seq<Vec3>, ids: seq<nat>, k: nat, extent: real, axis: nat -> Vec3, ghost mv: seq<bool>,
                   ids2: seq<nat>, s: nat, c: Vec3, count: nat, newId: nat, ghost origin: seq<nat>)
    returns (ids3: seq<nat>, used: bool)
    requires |ids| == |pos| && IdsBelow(ids, k) && s < k && mv == MovesMask(pos, ids, extent, axis)
    requires SplitSoFar(ids, mv, k, s, ids2, origin) && newId == k + |origin|
    requires c == Centroid(pos, ids, s) && count == CountOf(ids, s)
    ensures SplitSoFar(ids, mv, k, s + 1, ids3, if used then origin + [s] else origin)
  {
    assert forall i | 0 <= i < |ids| :: (ids[i] == s) == (ids2[i] == s);
    SameMembers(pos, ids, ids2, s, s, c);
    MemberMoves(pos, ids, ids2, extent, axis, s);
    ids3, used := SplitSwarm(pos, ids2, s, c, count, extent, axis(s), newId);
    SplitStep(ids, mv, k, s, ids2, origin, ids3, used);
  }

  /** SplitDone in terms of Moves. */
  lemma SplitOutcome(pos: seq<Vec3>, ids: seq<nat>, k: nat, extent: real, axis: nat -> Vec3, ids2: seq<nat>, origin: seq<nat>)
    requires |ids| == |pos| && IdsBelow(ids, k)
    requires SplitSoFar(ids, MovesMask(pos, ids, extent, axis), k, k, ids2, origin)
    ensures |ids2| == |ids| && IdsBelow(ids2, k + |origin|)
    ensures forall i | 0 <= i < |ids| :: !Moves(pos, ids, extent, axis, i) ==> ids2[i] == ids[i]
    ensures forall i | 0 <= i < |ids| :: Moves(pos, ids, extent, axis, i) ==> k <= ids2[i]
    ensures forall i, j | 0 <= i < |ids| && 0 <= j < |ids| && Moves(pos, ids, extent, axis, i) && Moves(pos, ids, extent, axis, j) ::
              (ids2[i] == ids2[j] <==> ids[i] == ids[j]) && (ids2[i] < ids2[j] <==> ids[i] < ids[j])
    ensures forall t | k <= t < k + |origin| :: OccursBefore(ids2, t, |ids2|)
  {
    SplitDone(ids, MovesMask(pos, ids, extent, axis), k, ids2, origin);
  }

  // ---------------------------------------------------------------------
  // Phase 4: fading

  /** The scan for the swarm whose centroid is nearest to swarm s's, from
      index t on: other non-empty swarms only, strict comparison from the
      best distance so far. */
  function ScanOther(cents: seq<Vec3>, counts: seq<nat>, s: nat, t: nat, best: int, bestD: real): (r: int)
    requires |cents| == |counts| && s < |counts| && t <= |counts|
    requires best == -1 || (0 <= best < |counts| && best != s && counts[best] != 0)
    ensures r == -1 || (0 <= r < |counts| && r != s && counts[r] != 0)
    ensures (forall u | t <= u < |counts| && u != s && counts[u] != 0 :: Dist2(cents[s], cents[u]) >= bestD) ==> r == best
    ensures (exists u | t <= u < |counts| && u != s && counts[u] != 0 :: Dist2(cents[s], cents[u]) < bestD) ==>
              t <= r && Dist2(cents[s], cents[r]) < bestD &&
              (forall u | t <= u < |counts| && u != s && counts[u] != 0 :: Dist2(cents[s], cents[r]) <= Dist2(cents[s], cents[u])) &&
              (forall u | t <= u < r && u != s && counts[u] != 0 :: Dist2(cents[s], cents[r]) < Dist2(cents[s], cents[u]))
    decreases |counts| - t
  {
    if t == |counts| then best
    else if t == s || counts[t] == 0 then ScanOther(cents, counts, s, t + 1, best, bestD)
    else
      var d := Dist2(cents[s], cents[t]);
      if d < bestD then ScanOther(cents, counts, s, t + 1, t, d) else ScanOther(cents, counts, s, t + 1, best, bestD)
  }

  /** The swarm a small swarm s fades into: -1 when no other non-empty
      swarm has a centroid nearer than 1e30; otherwise the nearest such
      swarm, the lowest-numbered among equally near ones. */
  function NearestOther(cents: seq<Vec3>, counts: seq<nat>, s: nat): (r: int)
    requires |cents| == |counts| && s < |counts|
    ensures r == -1 || (0 <= r < |counts| && r != s && counts[r] != 0)
    ensures r == -1 <==> forall u | 0 <= u < |counts| && u != s && counts[u] != 0 :: Dist2(cents[s], cents[u]) >= Far
    ensures r != -1 ==>
              (forall u | 0 <= u < |counts| && u != s && counts[u] != 0 :: Dist2(cents[s], cents[r]) <= Dist2(cents[s], cents[u])) &&
              (forall u | 0 <= u < r && u != s && counts[u] != 0 :: Dist2(cents[s], cents[r]) < Dist2(cents[s], cents[u]))
  {
    ScanOther(cents, counts, s, 0, -1, Far)
  }

  /** One swarm's turn in the fade pass: a swarm of fewer than 8 members
      (by the counts taken before the pass), when there is more than one
      swarm, hands its boids to NearestOther. */
  function FadeOne(ids: seq<nat>, cents: seq<Vec3>, counts: seq<nat>, s: nat): seq<nat>
    requires |cents| == |counts| && s < |counts|
  {
    if counts[s] >= FadeCountThreshold || |counts| <= 1 then ids
    else
      var t := NearestOther(cents, counts, s);
      if t < 0 then ids else Replace(ids, s, t)
  }

  /** One fade turn only moves the boids of swarm s, and moves all of them
      to the same swarm. */
  lemma FadeOneMoves(ids: seq<nat>, cents: seq<Vec3>, counts: seq<nat>, s: nat, a: nat, b: nat)
    requires |cents| == |counts| && s < |counts| && a < |ids| && b < |ids|
    ensures |FadeOne(ids, cents, counts, s)| == |ids|
    ensures ids[a] != s || counts[s] >= FadeCountThreshold || |counts| <= 1 ==>
              FadeOne(ids, cents, counts, s)[a] == ids[a]
    ensures ids[a] == ids[b] ==> FadeOne(ids, cents, counts, s)[a] == FadeOne(ids, cents, counts, s)[b]
  {
  }

  /** The fade pass from swarm s to the last one. */
  function FadeFrom(ids: seq<nat>, cents: seq<Vec3>, counts: seq<nat>, s: nat): seq<nat>
    requires |cents| == |counts| && s <= |counts|
    decreases |counts| - s
  {
    if s == |counts| then ids else FadeFrom(FadeOne(ids, cents, counts, s), cents, counts, s + 1)
  }

  /** The fade pass keeps every id among the existing swarm ids. */
  lemma {:induction false} FadeKeepsRange(ids: seq<nat>, cents: seq<Vec3>, counts: seq<nat>, s: nat)
    requires |cents| == |counts| && s <= |counts| && IdsBelow(ids, |counts|)
    ensures |FadeFrom(ids, cents, counts, s)| == |ids| && IdsBelow(FadeFrom(ids, cents, counts, s), |counts|)
    decreases |counts| - s
  {
    if s < |counts| {
      FadeKeepsRange(FadeOne(ids, cents, counts, s), cents, counts, s + 1);
    }
  }

  /** A boid whose swarm had at least 8 members, or the only swarm, keeps
      its id through the fade pass. */
  lemma {:induction false} FadeKeepsLarge(ids: seq<nat>, cents: seq<Vec3>, counts: seq<nat>, s: nat, i: nat)
    requires |cents| == |counts| && s <= |counts| && i < |ids| && ids[i] < |counts|
    requires counts[ids[i]] >= FadeCountThreshold || |counts| <= 1
    ensures |FadeFrom(ids, cents, counts, s)| == |ids| && FadeFrom(ids, cents, counts, s)[i] == ids[i]
    decreases |counts| - s
  {
    if s < |counts| {
      var next := FadeOne(ids, cents, counts, s);
      FadeOneMoves(ids, cents, counts, s, i, i);
      FadeKeepsLarge(next, cents, counts, s + 1, i);
    }
  }

  /** Boids that share a swarm before the fade pass share one after it. */
  lemma {:induction false} FadeCoarsens(ids: seq<nat>, cents: seq<Vec3>, counts: seq<nat>, s: nat, a: nat, b: nat)
    requires |cents| == |counts| && s <= |counts| && a < |ids| && b < |ids| && ids[a] == ids[b]
    ensures |FadeFrom(ids, cents, counts, s)| == |ids| && FadeFrom(ids, cents, counts, s)[a] == FadeFrom(ids, cents, counts, s)[b]
    decreases |counts| - s
  {
    if s < |counts| {
      var next := FadeOne(ids, cents, counts, s);
      FadeOneMoves(ids, cents, counts, s, a, b);
      FadeCoarsens(next, cents, counts, s + 1, a, b);
    }
  }

  /** A swarm that fades is left with no boids. */
  lemma FadeOneEmpties(ids: seq<nat>, cents: seq<Vec3>, counts: seq<nat>, s: nat)
    requires |cents| == |counts| && s < |counts|
    requires counts[s] < FadeCountThreshold && |counts| > 1 && NearestOther(cents, counts, s) >= 0
    ensures CountOf(FadeOne(ids, cents, counts, s), s) == 0
  {
    var t := NearestOther(cents, counts, s);
    CountPositive(FadeOne(ids, cents, counts, s), s);
  }

  /** The nearest-other scan as the source's loop. */
  method NearestOtherSwarm(cents: seq<Vec3>, counts: seq<nat>, s: nat) returns (bestT: int)
    requires |cents| == |counts| && s < |counts|
    ensures bestT == NearestOther(cents, counts, s)
  {
    bestT := -1;
    var bestD := Far;
    var t := 0;
    while t < |counts|
      invariant 0 <= t <= |counts|
      invariant bestT == -1 || (0 <= bestT < |counts| && bestT != s && counts[bestT] != 0)
      invariant ScanOther(cents, counts, s, t, bestT, bestD) == NearestOther(cents, counts, s)
    {
      if t != s && counts[t] != 0 {
        var d := Dist2(cents[s], cents[t]);
        if d < bestD {
          bestD := d;
          bestT := t;
        }
      }
      t := t + 1;
    }
  }

  /** Swarm s's turn in the fade pass. */
  method FadeTurn(ids: seq<nat>, cents: seq<Vec3>, counts: seq<nat>, s: nat) returns (ids2: seq<nat>)
    requires |cents| == |counts| && s < |counts|
    ensures ids2 == FadeOne(ids, cents, counts, s)
  {
    ids2 := ids;
    if !(counts[s] >= FadeCountThreshold || |counts| <= 1) {
      var bestT := NearestOtherSwarm(cents, counts, s);
      if bestT >= 0 {
        ids2 := Reassign(ids, s, bestT);
      }
    }
  }

  /** The fade pass as the source's loop, with the counts and centroids
      computed once before it. */
  method FadeSmall(pos: seq<Vec3>, ids: seq<nat>, k: nat) returns (ids2: seq<nat>)
    requires |ids| == |pos| && IdsBelow(ids, k)
    ensures ids2 == FadeFrom(ids, CentroidsOf(pos, ids, k), CountsOf(ids, k), 0)
  {
    var cents, counts := Accumulate(pos, ids, k);
    ids2 := ids;
    var s := 0;
    while s < k
      invariant 0 <= s <= k
      invariant FadeFrom(ids2, cents, counts, s) == FadeFrom(ids, cents, counts, 0)
    {
      ids2 := FadeTurn(ids2, cents, counts, s);
      s := s + 1;
    }
  }

  // ---------------------------------------------------------------------
  // Phase 5: compaction

  /** The non-empty swarm ids below k, in increasing order. */
  method AliveSwarms(ids: seq<nat>, k: nat) returns (alive: seq<nat>)
    ensures Increasing(alive)
    ensures forall x | 0 <= x < |alive| :: alive[x] < k && CountOf(ids, alive[x]) > 0
    ensures forall t | 0 <= t < k && CountOf(ids, t) > 0 :: t in alive
  {
    alive := [];
    var s := 0;
    while s < k
      invariant 0 <= s <= k && Increasing(alive)
      invariant forall x | 0 <= x < |alive| :: alive[x] < s && CountOf(ids, alive[x]) > 0
      invariant forall t | 0 <= t < s && CountOf(ids, t) > 0 :: t in alive
    {
      var c := CountMembers(ids, s);
      if c > 0 {
        alive := alive + [s];
      }
      s := s + 1;
    }
  }

  /** Drops the empty swarm ids, renumbering the rest in increasing order,
      and recomputes counts and centroids. The result is a valid partition,
      boids share a swarm exactly when they did, and the order of ids is
      kept. */
  method Compact(pos: seq<Vec3>, ids: seq<nat>, k: nat) returns (p: Partition)
    requires |ids| == |pos| && IdsBelow(ids, k)
    ensures ValidPartition(pos, p)
    ensures SameGrouping(ids, p.ids)
  {
    var alive := AliveSwarms(ids, k);
    forall i | 0 <= i < |ids|
      ensures ids[i] in alive
    {
      CountPositive(ids, ids[i]);
    }
    var ids2 := RemapAlive(ids, alive);
    var cents, counts := Accumulate(pos, ids2, |alive|);
    p := Partition(ids2, cents, counts);
    forall t | 0 <= t < |alive|
      ensures CountOf(ids2, t) > 0
    {
      CountPositive(ids, alive[t]);
      var i :| 0 <= i < |ids| && ids[i] == alive[t];
      assert alive[ids2[i]] == alive[t];
      CountPositive(ids2, t);
    }
    RemapKeepsOrder(ids, alive, ids2);
  }

  // ---------------------------------------------------------------------
  // The whole pass

  /** Boids linked by close points share a component, so they share a
      merged swarm too. */
  lemma MergeKeepsLinked(pos: seq<Vec3>, comps: seq<nat>, kc: nat, merged: seq<nat>, r: real, mr: real)
    requires ComponentIds(pos, r, comps) && MergedIds(pos, comps, kc, mr, merged)
    ensures KeepsLinked(pos, r, merged)
  {
    forall a, b | 0 <= a < |pos| && 0 <= b < |pos| && Linked(pos, r * r, a, b)
      ensures merged[a] == merged[b]
    {
      LinkedRefl(CentroidsOf(pos, comps, kc), mr * mr, comps[a]);
    }
  }

  /** Boids of one merged swarm on the same side of its split end in one
      swarm: the split keeps them together, fading only coarsens and the
      renumbering keeps co-membership. */
  lemma SameSideSameSwarm(pos: seq<Vec3>, merged: seq<nat>, km: nat, extent: real, axis: nat -> Vec3,
                          split: seq<nat>, ks: nat, faded: seq<nat>, pids: seq<nat>)
    requires SplitIds(pos, merged, km, extent, axis, split, ks)
    requires faded == FadeFrom(split, CentroidsOf(pos, split, ks), CountsOf(split, ks), 0) && |faded| == |pos|
    requires SameGrouping(faded, pids)
    ensures forall a, b | 0 <= a < |pos| && 0 <= b < |pos| && merged[a] == merged[b] &&
                          (Moves(pos, merged, extent, axis, a) <==> Moves(pos, merged, extent, axis, b)) ::
              pids[a] == pids[b]
  {
    forall a, b | 0 <= a < |pos| && 0 <= b < |pos| && merged[a] == merged[b] &&
                  (Moves(pos, merged, extent, axis, a) <==> Moves(pos, merged, extent, axis, b))
      ensures pids[a] == pids[b]
    {
      assert split[a] == split[b];
      FadeCoarsens(split, CentroidsOf(pos, split, ks), CountsOf(split, ks), 0, a, b);
    }
  }

  /** murmurClusterBoids with its random split axes given as axis. The ids
      after each phase are returned as ghost results: comps (the components),
      merged (after merging close centroids), split (after splitting) and
      faded (after fading), each described by its phase, and the last ones
      renumbered into p. */
  method ClusterBoids(pos: seq<Vec3>, extent: real, clusterRadius: real, mergeRadius: real, axis: nat -> Vec3)
    returns (p: Partition, ghost comps: seq<nat>, ghost kc: nat, ghost merged: seq<nat>, ghost km: nat,
             ghost split: seq<nat>, ghost ks: nat, ghost faded: seq<nat>)
    ensures ValidPartition(pos, p)
    ensures Total(p.counts) == |pos|
    ensures |pos| == 0 ==> p == Partition([], [], [])
    ensures ComponentIds(pos, extent * clusterRadius, comps)
    ensures MergedIds(pos, comps, kc, extent * mergeRadius, merged)
    ensures SplitIds(pos, merged, km, extent, axis, split, ks)
    ensures faded == FadeFrom(split, CentroidsOf(pos, split, ks), CountsOf(split, ks), 0) && |faded| == |pos|
    ensures SameGrouping(faded, p.ids)
    // End to end: linked boids share a merged swarm, and boids of one merged
    // swarm on the same side of its split end in one swarm.
    ensures KeepsLinked(pos, extent * clusterRadius, merged)
    ensures forall a, b | 0 <= a < |pos| && 0 <= b < |pos| && merged[a] == merged[b] &&
                          (Moves(pos, merged, extent, axis, a) <==> Moves(pos, merged, extent, axis, b)) ::
              p.ids[a] == p.ids[b]
  {
    var ids1, k1 := ConnectedComponents(pos, extent * clusterRadius);
    var ids2, k2 := MergeNearby(pos, ids1, k1, extent * mergeRadius);
    MergeKeepsLinked(pos, ids1, k1, ids2, extent * clusterRadius, extent * mergeRadius);
    var ids3, k3 := SplitLarge(pos, ids2, k2, extent, axis);
    var ids4 := FadeSmall(pos, ids3, k3);
    FadeKeepsRange(ids3, CentroidsOf(pos, ids3, k3), CountsOf(ids3, k3), 0);
    p := Compact(pos, ids4, k3);
    PartitionTotal(pos, p);
    SameSideSameSwarm(pos, ids2, k2, extent, axis, ids3, k3, ids4, p.ids);
    comps, kc, merged, km, split, ks, faded := ids1, k1, ids2, k2, ids3, k3, ids4;
  }
}
