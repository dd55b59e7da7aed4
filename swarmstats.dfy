/** Swarm ids, member counts and centroids: the specification functions the
    partitioner and the merge-to-target step are proved against, and the
    accumulation loop the source repeats after every relabelling. */
module SwarmStats {
  import opened Geometry

  /** The partitioner's result: a swarm id per boid, a centroid and a member
      count per swarm id. */
  datatype Partition = Partition(ids: seq<nat>, centroids: seq<Vec3>, counts: seq<nat>)

  /** Number of boids whose id is s. */
  function CountOf(ids: seq<nat>, s: nat): nat {
    if |ids| == 0 then 0
    else CountOf(ids[..|ids| - 1], s) + (if ids[|ids| - 1] == s then 1 else 0)
  }

  /** Sum of the positions of the boids whose id is s. */
  function SumOf(pos: seq<Vec3>, ids: seq<nat>, s: nat): Vec3
    requires |pos| == |ids|
  {
    if |ids| == 0 then Zero
    else
      var rest := SumOf(pos[..|ids| - 1], ids[..|ids| - 1], s);
      if ids[|ids| - 1] == s then Add(rest, pos[|ids| - 1]) else rest
  }

  /** The mean position of swarm s; an empty swarm keeps its (zero) sum, as
      the source leaves the accumulator undivided when the count is 0. */
  function Centroid(pos: seq<Vec3>, ids: seq<nat>, s: nat): Vec3
    requires |pos| == |ids|
  {
    var c := CountOf(ids, s);
    if c > 0 then Div(SumOf(pos, ids, s), c as real) else SumOf(pos, ids, s)
  }

  /** Sum of squared distances from c of the members of swarm s. */
  function SpreadSum(pos: seq<Vec3>, ids: seq<nat>, s: nat, c: Vec3): real
    requires |pos| == |ids|
  {
    if |ids| == 0 then 0.0
    else
      var rest := SpreadSum(pos[..|ids| - 1], ids[..|ids| - 1], s, c);
      if ids[|ids| - 1] == s then rest + Dist2(c, pos[|ids| - 1]) else rest
  }

  function CountsOf(ids: seq<nat>, k: nat): (r: seq<nat>)
    ensures |r| == k && forall s | 0 <= s < k :: r[s] == CountOf(ids, s)
  {
    seq(k, s requires 0 <= s => CountOf(ids, s))
  }

  function CentroidsOf(pos: seq<Vec3>, ids: seq<nat>, k: nat): (r: seq<Vec3>)
    requires |pos| == |ids|
    ensures |r| == k && forall s | 0 <= s < k :: r[s] == Centroid(pos, ids, s)
  {
    seq(k, s requires 0 <= s => Centroid(pos, ids, s))
  }

  /** Every id of the first k ids. */
  ghost predicate IdsBelow(ids: seq<nat>, k: nat) {
    forall i | 0 <= i < |ids| :: ids[i] < k
  }

  /** The invariant every partition the core hands out satisfies: each boid
      has an id in [0, number of swarms), each count is the number of boids
      with that id and is positive, each centroid is the mean position. */
  ghost predicate ValidPartition(pos: seq<Vec3>, p: Partition) {
    |p.ids| == |pos| && |p.centroids| == |p.counts| &&
    IdsBelow(p.ids, |p.counts|) &&
    forall s | 0 <= s < |p.counts| ::
      p.counts[s] == CountOf(p.ids, s) && p.counts[s] > 0 && p.centroids[s] == Centroid(pos, p.ids, s)
  }

  /** Sum of a sequence of counts. */
  function Total(counts: seq<nat>): nat {
    if |counts| == 0 then 0 else Total(counts[..|counts| - 1]) + counts[|counts| - 1]
  }

  /** Every id replaced by `to` where it was `from`. */
  function Replace(ids: seq<nat>, from: nat, to: nat): (r: seq<nat>)
    ensures |r| == |ids|
    ensures forall i | 0 <= i < |ids| :: r[i] == if ids[i] == from then to else ids[i]
  {
    seq(|ids|, i requires 0 <= i < |ids| => if ids[i] == from then to else ids[i])
  }

  // ---------------------------------------------------------------------
  // Lemmas about the specification functions

  /** A swarm is non-empty exactly when some boid carries its id. */
  lemma {:induction false} CountPositive(ids: seq<nat>, s: nat)
    ensures CountOf(ids, s) > 0 <==> exists i | 0 <= i < |ids| :: ids[i] == s
  {
    if |ids| > 0 {
      var init := ids[..|ids| - 1];
      CountPositive(init, s);
      if exists i | 0 <= i < |init| :: init[i] == s {
        var i :| 0 <= i < |init| && init[i] == s;
        assert ids[i] == s;
      }
      if exists i | 0 <= i < |ids| :: ids[i] == s {
        var i :| 0 <= i < |ids| && ids[i] == s;
        if i < |init| { assert init[i] == s; }
      }
    }
  }

  /** Statistics depend only on which boids are members: two labellings
      that pick out the same boids for s and t give s and t the same count,
      sum, centroid and spread. */
  lemma {:induction false} SameMembers(pos: seq<Vec3>, ids: seq<nat>, ids2: seq<nat>, s: nat, t: nat, c: Vec3)
    requires |ids| == |pos| && |ids2| == |pos|
    requires forall i | 0 <= i < |pos| :: (ids[i] == s) == (ids2[i] == t)
    ensures CountOf(ids, s) == CountOf(ids2, t)
    ensures SumOf(pos, ids, s) == SumOf(pos, ids2, t)
    ensures Centroid(pos, ids, s) == Centroid(pos, ids2, t)
    ensures SpreadSum(pos, ids, s, c) == SpreadSum(pos, ids2, t, c)
  {
    if |pos| > 0 {
      var m := |pos| - 1;
      SameMembers(pos[..m], ids[..m], ids2[..m], s, t, c);
    }
  }

  /** Replacing `from` by `to` empties `from`, adds its members to `to` and
      leaves every other count alone. */
  lemma {:induction false} CountReplace(ids: seq<nat>, from: nat, to: nat, s: nat)
    requires from != to
    ensures CountOf(Replace(ids, from, to), s) ==
              if s == from then 0
              else if s == to then CountOf(ids, from) + CountOf(ids, to)
              else CountOf(ids, s)
  {
    if |ids| > 0 {
      var m := |ids| - 1;
      CountReplace(ids[..m], from, to, s);
      assert Replace(ids, from, to)[..m] == Replace(ids[..m], from, to);
    }
  }

  /** Counts of ids all below k, summed over 0..k-1. */
  function SumCounts(ids: seq<nat>, k: nat): nat {
    if k == 0 then 0 else SumCounts(ids, k - 1) + CountOf(ids, k - 1)
  }

  lemma {:induction false} SumCountsSnoc(ids: seq<nat>, x: nat, k: nat)
    ensures SumCounts(ids + [x], k) == SumCounts(ids, k) + (if x < k then 1 else 0)
  {
    assert (ids + [x])[..|ids|] == ids;
    if k > 0 {
      SumCountsSnoc(ids, x, k - 1);
    }
  }

  lemma SumCountsNone(ids: seq<nat>, k: nat)
    requires ids == []
    ensures SumCounts(ids, k) == 0
  {
  }

  /** When every id is below k, the counts of ids 0..k-1 add up to the
      number of boids. */
  lemma {:induction false} SumCountsIsLength(ids: seq<nat>, k: nat)
    requires IdsBelow(ids, k)
    ensures SumCounts(ids, k) == |ids|
  {
    if |ids| > 0 {
      var m := |ids| - 1;
      assert IdsBelow(ids[..m], k) && ids[m] < k;
      SumCountsIsLength(ids[..m], k);
      SumCountsSnoc(ids[..m], ids[m], k);
      assert ids[..m] + [ids[m]] == ids;
    } else {
      SumCountsNone(ids, k);
    }
  }

  lemma {:induction false} TotalIsSumCounts(counts: seq<nat>, ids: seq<nat>)
    requires forall s | 0 <= s < |counts| :: counts[s] == CountOf(ids, s)
    ensures Total(counts) == SumCounts(ids, |counts|)
  {
    if |counts| > 0 {
      TotalIsSumCounts(counts[..|counts| - 1], ids);
    }
  }

  /** The counts of a valid partition add up to the number of boids, and
      zero boids give no swarms. */
  lemma PartitionTotal(pos: seq<Vec3>, p: Partition)
    requires ValidPartition(pos, p)
    ensures Total(p.counts) == |pos|
    ensures |pos| == 0 ==> p.ids == [] && p.counts == [] && p.centroids == []
  {
    TotalIsSumCounts(p.counts, p.ids);
    SumCountsIsLength(p.ids, |p.counts|);
    assert |p.counts| > 0 ==> p.counts[0] == CountOf(p.ids, 0) > 0;
  }

  // ---------------------------------------------------------------------
  // The accumulation loop

  /** Counts and centroids of ids 0..k-1: one pass adding each boid's
      position and 1 to its swarm's accumulators, then a division of each
      non-empty accumulator by its count. */
  method Accumulate(pos: seq<Vec3>, ids: seq<nat>, k: nat) returns (cents: seq<Vec3>, counts: seq<nat>)
    requires |pos| == |ids| && IdsBelow(ids, k)
    ensures cents == CentroidsOf(pos, ids, k) && counts == CountsOf(ids, k)
  {
    cents := seq(k, s => Zero);
    counts := seq(k, s => 0);
    var i := 0;
    while i < |ids|
      invariant 0 <= i <= |ids| && |cents| == k && |counts| == k
      invariant forall s | 0 <= s < k ::
        counts[s] == CountOf(ids[..i], s) && cents[s] == SumOf(pos[..i], ids[..i], s)
    {
      var s := ids[i];
      cents := cents[s := Add(cents[s], pos[i])];
      counts := counts[s := counts[s] + 1];
      assert ids[..i + 1][..i] == ids[..i] && pos[..i + 1][..i] == pos[..i];
      i := i + 1;
    }
    assert ids[..|ids|] == ids && pos[..|pos|] == pos;
    var s := 0;
    while s < k
      invariant 0 <= s <= k && |cents| == k && |counts| == k
      invariant forall t | 0 <= t < k :: counts[t] == CountOf(ids, t)
      invariant forall t | 0 <= t < s :: cents[t] == Centroid(pos, ids, t)
      invariant forall t | s <= t < k :: cents[t] == SumOf(pos, ids, t)
    {
      var c := counts[s];
      if c > 0 {
        cents := cents[s := Div(cents[s], c as real)];
      }
      s := s + 1;
    }
  }

  /** Counts the boids of swarm s with one pass. */
  method CountMembers(ids: seq<nat>, s: nat) returns (c: nat)
    ensures c == CountOf(ids, s)
  {
    c := 0;
    var i := 0;
    while i < |ids|
      invariant 0 <= i <= |ids| && c == CountOf(ids[..i], s)
    {
      if ids[i] == s {
        c := c + 1;
      }
      assert ids[..i + 1][..i] == ids[..i];
      i := i + 1;
    }
    assert ids[..|ids|] == ids;
  }

  /** Sets every id `from` to `to`, one boid at a time. */
  method Reassign(ids: seq<nat>, from: nat, to: nat) returns (r: seq<nat>)
    ensures r == Replace(ids, from, to)
  {
    r := ids;
    var i := 0;
    while i < |r|
      invariant 0 <= i <= |r| && |r| == |ids|
      invariant forall j | 0 <= j < i :: r[j] == if ids[j] == from then to else ids[j]
      invariant forall j | i <= j < |r| :: r[j] == ids[j]
    {
      if r[i] == from {
        r := r[i := to];
      }
      i := i + 1;
    }
  }

  /** Strictly increasing: the order in which the source collects the ids of
      surviving swarms. */
  ghost predicate Increasing(alive: seq<nat>) {
    forall x, y | 0 <= x < y < |alive| :: alive[x] < alive[y]
  }

  /** Maps every id to its position in the list of surviving ids (the
      source's remap Map built with alive.forEach). */
  method RemapAlive(ids: seq<nat>, alive: seq<nat>) returns (r: seq<nat>)
    requires Increasing(alive)
    requires forall i | 0 <= i < |ids| :: ids[i] in alive
    ensures |r| == |ids|
    ensures forall i | 0 <= i < |ids| :: r[i] < |alive| && alive[r[i]] == ids[i]
  {
    var remap: map<nat, nat> := map[];
    var idx := 0;
    while idx < |alive|
      invariant 0 <= idx <= |alive|
      invariant remap.Keys == set x | 0 <= x < idx :: alive[x]
      invariant forall x | 0 <= x < idx :: remap[alive[x]] == x
    {
      remap := remap[alive[idx] := idx];
      idx := idx + 1;
    }
    r := [];
    var i := 0;
    while i < |ids|
      invariant 0 <= i <= |ids| && |r| == i
      invariant forall j | 0 <= j < i :: r[j] < |alive| && alive[r[j]] == ids[j]
    {
      ghost var x :| 0 <= x < |alive| && alive[x] == ids[i];
      r := r + [remap[ids[i]]];
      i := i + 1;
    }
  }

  /** Renumbering through an increasing list of surviving ids keeps which
      boids share a swarm and the order of their ids. */
  lemma RemapKeepsOrder(ids: seq<nat>, alive: seq<nat>, r: seq<nat>)
    requires Increasing(alive) && |r| == |ids|
    requires forall i | 0 <= i < |ids| :: r[i] < |alive| && alive[r[i]] == ids[i]
    ensures forall a, b | 0 <= a < |ids| && 0 <= b < |ids| ::
              (r[a] == r[b] <==> ids[a] == ids[b]) && (r[a] < r[b] <==> ids[a] < ids[b])
  {
    forall a, b | 0 <= a < |ids| && 0 <= b < |ids|
      ensures (r[a] == r[b] <==> ids[a] == ids[b]) && (r[a] < r[b] <==> ids[a] < ids[b])
    {
      if r[a] < r[b] {
        assert alive[r[a]] < alive[r[b]];
      } else if r[b] < r[a] {
        assert alive[r[b]] < alive[r[a]];
      }
    }
  }
}
