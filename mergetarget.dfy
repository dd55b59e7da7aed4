/** murmurMergeSwarmsToTarget: while there are more non-empty swarms than
    the target, the two non-empty swarms with the nearest centroids are
    merged (the later into the earlier), then the surviving swarms are
    renumbered densely. */
module SwarmMerge {
  import opened Geometry
  import opened SwarmStats

  /** Number of non-empty swarms (`counts.filter((c) => c > 0).length`). */
  function NonEmpty(counts: seq<nat>): (r: nat)
    ensures r <= |counts|
  {
    if |counts| == 0 then 0
    else NonEmpty(counts[..|counts| - 1]) + (if counts[|counts| - 1] > 0 then 1 else 0)
  }

  /** Emptying a non-empty swarm removes one from the non-empty count;
      changing a non-empty count to another positive one changes nothing. */
  lemma {:induction false} NonEmptyUpdate(counts: seq<nat>, s: nat, v: nat)
    requires s < |counts|
    ensures NonEmpty(counts[s := v]) ==
              NonEmpty(counts) - (if counts[s] > 0 then 1 else 0) + (if v > 0 then 1 else 0)
  {
    var m := |counts| - 1;
    if s < m {
      NonEmptyUpdate(counts[..m], s, v);
      assert counts[s := v][..m] == counts[..m][s := v];
    } else {
      assert counts[s := v][..m] == counts[..m];
    }
  }

  /** Some swarm is non-empty when the non-empty count is positive. */
  lemma {:induction false} NonEmptyWitness(counts: seq<nat>) returns (s: nat)
    requires NonEmpty(counts) > 0
    ensures s < |counts| && counts[s] > 0
  {
    var m := |counts| - 1;
    if counts[m] > 0 {
      s := m;
    } else {
      s := NonEmptyWitness(counts[..m]);
    }
  }

  /** A pair the merge loop may pick: two distinct non-empty swarms, the
      lower-numbered first. */
  ghost predicate Candidate(counts: seq<nat>, a: nat, b: nat) {
    a < b < |counts| && counts[a] > 0 && counts[b] > 0
  }

  /** With at least two non-empty swarms there is a candidate pair. */
  lemma TwoNonEmpty(counts: seq<nat>) returns (a: nat, b: nat)
    requires NonEmpty(counts) >= 2
    ensures Candidate(counts, a, b)
  {
    var s := NonEmptyWitness(counts);
    NonEmptyUpdate(counts, s, 0);
    var t := NonEmptyWitness(counts[s := 0]);
    if s < t { a, b := s, t; } else { a, b := t, s; }
  }

  /** (a, b) comes at or after (s1, s2) in the order the double loop visits
      pairs. */
  ghost predicate NotBefore(a: nat, b: nat, s1: nat, s2: nat) {
    s1 < a || (a == s1 && s2 <= b)
  }

  /** (p, q) is the pair the merge loop picks: a candidate whose centroids
      are nearest, and strictly nearer than every candidate the double loop
      visits before it (the comparison is strict, so ties go to the first
      pair visited). */
  ghost predicate IsClosestPair(cents: seq<Vec3>, counts: seq<nat>, p: nat, q: nat)
    requires |cents| == |counts|
  {
    Candidate(counts, p, q) &&
    (forall a: nat, b: nat | Candidate(counts, a, b) :: Dist2(cents[p], cents[q]) <= Dist2(cents[a], cents[b])) &&
    (forall a: nat, b: nat | Candidate(counts, a, b) && !NotBefore(a, b, p, q) ::
       Dist2(cents[p], cents[q]) < Dist2(cents[a], cents[b]))
  }

  /** At most one pair is the closest pair. */
  lemma ClosestPairUnique(cents: seq<Vec3>, counts: seq<nat>, p: nat, q: nat, p2: nat, q2: nat)
    requires |cents| == |counts| && IsClosestPair(cents, counts, p, q) && IsClosestPair(cents, counts, p2, q2)
    ensures p == p2 && q == q2
  {
  }

  /** The state of the double loop before pair (s1, s2): best is None
      exactly when no candidate has been visited, and otherwise it is the
      closest pair among the visited ones, at distance bestD. */
  ghost predicate BestSoFar(cents: seq<Vec3>, counts: seq<nat>, s1: nat, s2: nat, best: Option<(nat, nat)>, bestD: real)
    requires |cents| == |counts|
  {
    (best.None? <==> forall a: nat, b: nat | Candidate(counts, a, b) :: NotBefore(a, b, s1, s2)) &&
    (best.Some? ==>
       var p, q := best.value.0, best.value.1;
       Candidate(counts, p, q) && !NotBefore(p, q, s1, s2) && bestD == Dist2(cents[p], cents[q]) &&
       (forall a: nat, b: nat | Candidate(counts, a, b) && !NotBefore(a, b, s1, s2) :: bestD <= Dist2(cents[a], cents[b])) &&
       (forall a: nat, b: nat | Candidate(counts, a, b) && !NotBefore(a, b, s1, s2) && !NotBefore(a, b, p, q) ::
          bestD < Dist2(cents[a], cents[b])))
  }

  /** Visiting pair (s1, s2) keeps BestSoFar. */
  lemma VisitPair(cents: seq<Vec3>, counts: seq<nat>, s1: nat, s2: nat, best: Option<(nat, nat)>, bestD: real)
    requires |cents| == |counts| && s1 < s2 < |counts| && counts[s1] > 0
    requires BestSoFar(cents, counts, s1, s2, best, bestD)
    ensures var d := Dist2(cents[s1], cents[s2]);
            if counts[s2] != 0 && (best.None? || d < bestD)
            then BestSoFar(cents, counts, s1, s2 + 1, Some((s1, s2)), d)
            else BestSoFar(cents, counts, s1, s2 + 1, best, bestD)
  {
    var d := Dist2(cents[s1], cents[s2]);
    if counts[s2] == 0 {
      // (s1, s2) is no candidate: the visited candidates are the same
      forall a: nat, b: nat | Candidate(counts, a, b)
        ensures NotBefore(a, b, s1, s2) <==> NotBefore(a, b, s1, s2 + 1)
      {
      }
    } else if best.None? || d < bestD {
      assert Candidate(counts, s1, s2) && !NotBefore(s1, s2, s1, s2 + 1);
      forall a: nat, b: nat | Candidate(counts, a, b) && !NotBefore(a, b, s1, s2 + 1)
        ensures d <= Dist2(cents[a], cents[b])
        ensures !NotBefore(a, b, s1, s2) ==> d < Dist2(cents[a], cents[b])
      {
        if !NotBefore(a, b, s1, s2) {
          assert best.Some? && bestD <= Dist2(cents[a], cents[b]);
        }
      }
    } else {
      assert best.Some? && bestD <= d;
      var p, q := best.value.0, best.value.1;
      forall a: nat, b: nat | Candidate(counts, a, b) && !NotBefore(a, b, s1, s2 + 1)
        ensures bestD <= Dist2(cents[a], cents[b])
        ensures !NotBefore(a, b, p, q) ==> bestD < Dist2(cents[a], cents[b])
      {
        if a == s1 && b == s2 {
          assert NotBefore(a, b, p, q);
        }
      }
    }
  }

  /** The start of a row: its pairs before (s1, s1 + 1) are no candidates. */
  lemma RowStart(cents: seq<Vec3>, counts: seq<nat>, s1: nat, best: Option<(nat, nat)>, bestD: real)
    requires |cents| == |counts| && s1 < |counts|
    requires BestSoFar(cents, counts, s1, 0, best, bestD)
    ensures BestSoFar(cents, counts, s1, s1 + 1, best, bestD)
  {
    forall a: nat, b: nat | Candidate(counts, a, b)
      ensures NotBefore(a, b, s1, 0) <==> NotBefore(a, b, s1, s1 + 1)
    {
    }
  }

  /** The end of a row: the next row's start visits nothing new. */
  lemma NextRow(cents: seq<Vec3>, counts: seq<nat>, s1: nat, s2: nat, best: Option<(nat, nat)>, bestD: real)
    requires |cents| == |counts| && s1 < |counts| && (s2 >= |counts| || counts[s1] == 0)
    requires BestSoFar(cents, counts, s1, s2, best, bestD)
    ensures BestSoFar(cents, counts, s1 + 1, 0, best, bestD)
  {
  }

  /** Once every pair is visited, BestSoFar is the closest pair, and None
      means fewer than two non-empty swarms. */
  lemma AllVisited(cents: seq<Vec3>, counts: seq<nat>, best: Option<(nat, nat)>, bestD: real)
    requires |cents| == |counts| && BestSoFar(cents, counts, |counts|, 0, best, bestD)
    ensures best.None? <==> NonEmpty(counts) < 2
    ensures best.Some? ==> IsClosestPair(cents, counts, best.value.0, best.value.1)
  {
    if NonEmpty(counts) >= 2 {
      var a, b := TwoNonEmpty(counts);
    }
    if best.Some? {
      var a, b := best.value.0, best.value.1;
      NonEmptyUpdate(counts, a, 0);
      NonEmptyUpdate(counts[a := 0], b, 0);
    }
  }

  /** The inner loop for a non-empty swarm s1: the pairs (s1, s2) for
      s2 > s1. */
  method ScanRow(cents: seq<Vec3>, counts: seq<nat>, s1: nat, best0: Option<(nat, nat)>, bestD0: real)
    returns (best: Option<(nat, nat)>, bestD: real)
    requires |cents| == |counts| && s1 < |counts| && counts[s1] != 0
    requires BestSoFar(cents, counts, s1, s1 + 1, best0, bestD0)
    ensures BestSoFar(cents, counts, s1, |counts|, best, bestD)
  {
    best, bestD := best0, bestD0;
    var s2 := s1 + 1;
    while s2 < |counts|
      invariant s1 < s2 <= |counts| && BestSoFar(cents, counts, s1, s2, best, bestD)
    {
      VisitPair(cents, counts, s1, s2, best, bestD);
      if counts[s2] != 0 {
        var d := Dist2(cents[s1], cents[s2]);
        if best.None? || d < bestD {
          bestD := d;
          best := Some((s1, s2));
        }
      }
      s2 := s2 + 1;
    }
  }

  /** The source's double loop over the pairs of non-empty swarms: the
      closest pair, or None when fewer than two swarms are non-empty. */
  method ClosestPair(cents: seq<Vec3>, counts: seq<nat>) returns (best: Option<(nat, nat)>)
    requires |cents| == |counts|
    ensures best.None? <==> NonEmpty(counts) < 2
    ensures best.Some? ==> IsClosestPair(cents, counts, best.value.0, best.value.1)
  {
    best := None;
    var bestD := 0.0;
    var s1 := 0;
    while s1 < |counts|
      invariant s1 <= |counts| && BestSoFar(cents, counts, s1, 0, best, bestD)
    {
      RowStart(cents, counts, s1, best, bestD);
      var s2 := s1 + 1;
      if counts[s1] != 0 {
        best, bestD := ScanRow(cents, counts, s1, best, bestD);
        s2 := |counts|;
      }
      NextRow(cents, counts, s1, s2, best, bestD);
      s1 := s1 + 1;
    }
    AllVisited(cents, counts, best, bestD);
  }

  // ---------------------------------------------------------------------
  // Merging one pair

  /** The counts are the member counts of the ids. */
  ghost predicate Consistent(ids: seq<nat>, counts: seq<nat>) {
    IdsBelow(ids, |counts|) && forall s | 0 <= s < |counts| :: counts[s] == CountOf(ids, s)
  }

  /** Every non-empty swarm's centroid is the mean of its members. */
  ghost predicate Means(pos: seq<Vec3>, ids: seq<nat>, cents: seq<Vec3>, counts: seq<nat>)
    requires |pos| == |ids| && |cents| == |counts|
  {
    forall s | 0 <= s < |counts| && counts[s] > 0 :: cents[s] == Centroid(pos, ids, s)
  }

  /** Sum of the positions of the members of s. */
  method SumMembers(pos: seq<Vec3>, ids: seq<nat>, s: nat) returns (sum: Vec3)
    requires |pos| == |ids|
    ensures sum == SumOf(pos, ids, s)
  {
    sum := Zero;
    var i := 0;
    while i < |ids|
      invariant 0 <= i <= |ids| && sum == SumOf(pos[..i], ids[..i], s)
    {
      if ids[i] == s {
        sum := Add(sum, pos[i]);
      }
      assert ids[..i + 1][..i] == ids[..i] && pos[..i + 1][..i] == pos[..i];
      i := i + 1;
    }
    assert ids[..|ids|] == ids && pos[..|pos|] == pos;
  }

  /** The working state of the merge loop: ids, centroids and counts. */
  datatype MergeSnapshot = MergeSnapshot(ids: seq<nat>, cents: seq<Vec3>, cnts: seq<nat>)

  /** The state after merging s2 into s1: s2's boids take id s1, s1's count
      absorbs s2's, s2's count drops to 0, and s1's centroid becomes the
      mean of its members (their sum when it has none). */
  function Merged(pos: seq<Vec3>, st: MergeSnapshot, s1: nat, s2: nat): (m: MergeSnapshot)
    requires |pos| == |st.ids| && |st.cents| == |st.cnts| && s1 < |st.cnts| && s2 < |st.cnts| && s1 != s2
    ensures |m.ids| == |st.ids| && |m.cents| == |st.cents| && |m.cnts| == |st.cnts|
  {
    var ids2 := Replace(st.ids, s2, s1);
    var cnts2 := st.cnts[s1 := st.cnts[s1] + st.cnts[s2]][s2 := 0];
    var sum := SumOf(pos, ids2, s1);
    var c := cnts2[s1];
    MergeSnapshot(ids2, st.cents[s1 := if c > 0 then Div(sum, c as real) else sum], cnts2)
  }

  /** states[t + 1] is states[t] with its closest pair, pairs[t], merged:
      the run of greedy merges the loop performs. */
  ghost predicate GreedyRun(pos: seq<Vec3>, states: seq<MergeSnapshot>, pairs: seq<(nat, nat)>) {
    |states| == |pairs| + 1 &&
    forall t | 0 <= t < |pairs| ::
      |pos| == |states[t].ids| && |states[t].cents| == |states[t].cnts| &&
      IsClosestPair(states[t].cents, states[t].cnts, pairs[t].0, pairs[t].1) &&
      states[t + 1] == Merged(pos, states[t], pairs[t].0, pairs[t].1)
  }

  /** Two greedy runs from one state agree up to step t. */
  lemma {:induction false} RunsAgree(pos: seq<Vec3>, st1: seq<MergeSnapshot>, p1: seq<(nat, nat)>,
                                     st2: seq<MergeSnapshot>, p2: seq<(nat, nat)>, t: nat)
    requires GreedyRun(pos, st1, p1) && GreedyRun(pos, st2, p2) && |p1| == |p2| && st1[0] == st2[0]
    requires t <= |p1|
    ensures st1[t] == st2[t]
    ensures t < |p1| ==> p1[t] == p2[t]
    decreases t
  {
    if t > 0 {
      RunsAgree(pos, st1, p1, st2, p2, t - 1);
    }
    if t < |p1| {
      ClosestPairUnique(st1[t].cents, st1[t].cnts, p1[t].0, p1[t].1, p2[t].0, p2[t].1);
    }
  }

  /** A greedy run is determined by its start and its length: the merges
      are forced, ties included. */
  lemma GreedyRunUnique(pos: seq<Vec3>, st1: seq<MergeSnapshot>, p1: seq<(nat, nat)>,
                        st2: seq<MergeSnapshot>, p2: seq<(nat, nat)>)
    requires GreedyRun(pos, st1, p1) && GreedyRun(pos, st2, p2) && |p1| == |p2| && st1[0] == st2[0]
    ensures st1 == st2 && p1 == p2
  {
    forall t | 0 <= t < |st1|
      ensures st1[t] == st2[t]
    {
      RunsAgree(pos, st1, p1, st2, p2, t);
    }
    forall t | 0 <= t < |p1|
      ensures p1[t] == p2[t]
    {
      RunsAgree(pos, st1, p1, st2, p2, t);
    }
  }

  /** Appending a closest-pair merge to a greedy run. */
  lemma GreedyRunExtend(pos: seq<Vec3>, states: seq<MergeSnapshot>, pairs: seq<(nat, nat)>, s1: nat, s2: nat, next: MergeSnapshot)
    requires GreedyRun(pos, states, pairs)
    requires var st := states[|pairs|];
             |pos| == |st.ids| && |st.cents| == |st.cnts| && IsClosestPair(st.cents, st.cnts, s1, s2) &&
             next == Merged(pos, st, s1, s2)
    ensures GreedyRun(pos, states + [next], pairs + [(s1, s2)])
  {
    var states2, pairs2 := states + [next], pairs + [(s1, s2)];
    forall t | 0 <= t < |pairs2|
      ensures |pos| == |states2[t].ids| && |states2[t].cents| == |states2[t].cnts| &&
              IsClosestPair(states2[t].cents, states2[t].cnts, pairs2[t].0, pairs2[t].1) &&
              states2[t + 1] == Merged(pos, states2[t], pairs2[t].0, pairs2[t].1)
    {
      if t < |pairs| {
        assert states2[t] == states[t] && states2[t + 1] == states[t + 1] && pairs2[t] == pairs[t];
      }
    }
  }

  /** r is st renumbered densely: the surviving ids in increasing order
      become 0, 1, ..., each keeping its members, count and centroid. */
  ghost predicate CompactionOf(r: Partition, st: MergeSnapshot) {
    |r.ids| == |st.ids| && |st.cents| == |st.cnts| && |r.centroids| == |r.counts| &&
    IdsBelow(r.ids, |r.counts|) && IdsBelow(st.ids, |st.cnts|) &&
    (forall s | 0 <= s < |r.counts| :: r.counts[s] == CountOf(r.ids, s) && r.counts[s] > 0) &&
    (forall a, b | 0 <= a < |r.ids| && 0 <= b < |r.ids| ::
       (r.ids[a] == r.ids[b] <==> st.ids[a] == st.ids[b]) && (r.ids[a] < r.ids[b] <==> st.ids[a] < st.ids[b])) &&
    forall i | 0 <= i < |r.ids| ::
      r.centroids[r.ids[i]] == st.cents[st.ids[i]] && r.counts[r.ids[i]] == st.cnts[st.ids[i]]
  }

  /** One merge: every boid of s2 moves to s1, s1's count absorbs s2's and
      s2's drops to 0, and s1's centroid is recomputed from its members;
      everything else is left alone. On consistent counts the counts stay
      consistent, the non-empty count drops by one and s1's centroid is the
      mean of its new members. */
  method MergePair(pos: seq<Vec3>, ids: seq<nat>, cents: seq<Vec3>, cnts: seq<nat>, s1: nat, s2: nat)
    returns (ids2: seq<nat>, cents2: seq<Vec3>, cnts2: seq<nat>)
    requires |pos| == |ids| && |cents| == |cnts| && s1 < |cnts| && s2 < |cnts| && s1 != s2
    ensures MergeSnapshot(ids2, cents2, cnts2) == Merged(pos, MergeSnapshot(ids, cents, cnts), s1, s2)
    ensures ids2 == Replace(ids, s2, s1)
    ensures cnts2 == cnts[s1 := cnts[s1] + cnts[s2]][s2 := 0]
    ensures |cents2| == |cents| && forall s | 0 <= s < |cents| && s != s1 :: cents2[s] == cents[s]
    ensures Consistent(ids, cnts) ==> Consistent(ids2, cnts2) && cents2[s1] == Centroid(pos, ids2, s1)
    ensures cnts[s1] > 0 && cnts[s2] > 0 ==> NonEmpty(cnts2) == NonEmpty(cnts) - 1
  {
    ids2 := Reassign(ids, s2, s1);
    cnts2 := cnts[s1 := cnts[s1] + cnts[s2]];
    cnts2 := cnts2[s2 := 0];
    var sum := SumMembers(pos, ids2, s1);
    var c := cnts2[s1];
    cents2 := cents[s1 := if c > 0 then Div(sum, c as real) else sum];
    MergedFacts(pos, MergeSnapshot(ids, cents, cnts), s1, s2);
  }

  /** A merge keeps the counts consistent with the ids and makes s1's
      centroid the mean of its new members; merging two non-empty swarms
      leaves one non-empty swarm fewer. */
  lemma MergedFacts(pos: seq<Vec3>, st: MergeSnapshot, s1: nat, s2: nat)
    requires |pos| == |st.ids| && |st.cents| == |st.cnts| && s1 < |st.cnts| && s2 < |st.cnts| && s1 != s2
    ensures var m := Merged(pos, st, s1, s2);
            Consistent(st.ids, st.cnts) ==> Consistent(m.ids, m.cnts) && m.cents[s1] == Centroid(pos, m.ids, s1)
    ensures st.cnts[s1] > 0 && st.cnts[s2] > 0 ==> NonEmpty(Merged(pos, st, s1, s2).cnts) == NonEmpty(st.cnts) - 1
  {
    var m := Merged(pos, st, s1, s2);
    if Consistent(st.ids, st.cnts) {
      forall s | 0 <= s < |m.cnts|
        ensures m.cnts[s] == CountOf(m.ids, s)
      {
        CountReplace(st.ids, s2, s1, s);
      }
    }
    if st.cnts[s1] > 0 && st.cnts[s2] > 0 {
      NonEmptyUpdate(st.cnts, s1, st.cnts[s1] + st.cnts[s2]);
      NonEmptyUpdate(st.cnts[s1 := st.cnts[s1] + st.cnts[s2]], s2, 0);
    }
  }

  // ---------------------------------------------------------------------
  // The whole step

  /** The surviving swarm ids in increasing order (the source's `alive`). */
  method AliveIds(cnts: seq<nat>) returns (alive: seq<nat>)
    ensures Increasing(alive) && |alive| == NonEmpty(cnts)
    ensures forall x | 0 <= x < |alive| :: alive[x] < |cnts| && cnts[alive[x]] > 0
    ensures forall s | 0 <= s < |cnts| && cnts[s] > 0 :: s in alive
  {
    alive := [];
    var s := 0;
    while s < |cnts|
      invariant 0 <= s <= |cnts| && Increasing(alive) && |alive| == NonEmpty(cnts[..s])
      invariant forall x | 0 <= x < |alive| :: alive[x] < s && cnts[alive[x]] > 0
      invariant forall t | 0 <= t < s && cnts[t] > 0 :: t in alive
    {
      NonEmptyPrefix(cnts, s);
      if cnts[s] > 0 {
        alive := alive + [s];
      }
      s := s + 1;
    }
    assert cnts[..|cnts|] == cnts;
  }

  lemma NonEmptyPrefix(cnts: seq<nat>, s: nat)
    requires s < |cnts|
    ensures NonEmpty(cnts[..s + 1]) == NonEmpty(cnts[..s]) + if cnts[s] > 0 then 1 else 0
  {
    assert cnts[..s + 1][..s] == cnts[..s];
  }

  /** The state of the merge loop: ids, counts and centroids stay
      consistent, K counts the non-empty swarms, boids that shared a swarm
      at the start still do. */
  ghost predicate MergeState(pos: seq<Vec3>, ids0: seq<nat>, cents0: seq<Vec3>, counts0: seq<nat>,
                             ids: seq<nat>, cents: seq<Vec3>, cnts: seq<nat>, k: nat)
    requires |pos| == |ids0| && |cents0| == |counts0|
  {
    |ids| == |ids0| && |cents| == |cnts| && |cnts| == |counts0| &&
    Consistent(ids, cnts) && k == NonEmpty(cnts) &&
    (forall a, b | 0 <= a < |ids| && 0 <= b < |ids| && ids0[a] == ids0[b] :: ids[a] == ids[b]) &&
    (Means(pos, ids0, cents0, counts0) ==> Means(pos, ids, cents, cnts))
  }

  /** Merging a candidate pair keeps MergeState with one swarm fewer. */
  lemma MergeStateStep(pos: seq<Vec3>, ids0: seq<nat>, cents0: seq<Vec3>, counts0: seq<nat>,
                       ids: seq<nat>, cents: seq<Vec3>, cnts: seq<nat>, k: nat, s1: nat, s2: nat,
                       ids2: seq<nat>, cents2: seq<Vec3>, cnts2: seq<nat>)
    requires |pos| == |ids0| && |cents0| == |counts0|
    requires MergeState(pos, ids0, cents0, counts0, ids, cents, cnts, k) && Candidate(cnts, s1, s2)
    requires ids2 == Replace(ids, s2, s1)
    requires cnts2 == cnts[s1 := cnts[s1] + cnts[s2]][s2 := 0]
    requires |cents2| == |cents| && forall s | 0 <= s < |cents| && s != s1 :: cents2[s] == cents[s]
    requires Consistent(ids, cnts) ==> Consistent(ids2, cnts2) && cents2[s1] == Centroid(pos, ids2, s1)
    requires cnts[s1] > 0 && cnts[s2] > 0 ==> NonEmpty(cnts2) == NonEmpty(cnts) - 1
    ensures k >= 1 && MergeState(pos, ids0, cents0, counts0, ids2, cents2, cnts2, k - 1)
  {
    if Means(pos, ids0, cents0, counts0) {
      forall s | 0 <= s < |cnts2| && cnts2[s] > 0
        ensures cents2[s] == Centroid(pos, ids2, s)
      {
        if s != s1 {
          SameMembers(pos, ids, ids2, s, s, Zero);
        }
      }
    }
  }

  /** murmurMergeSwarmsToTarget on a consistent partition (counts are the
      member counts of the ids, as murmurClusterBoids hands them over).
      With a non-positive target, or no more non-empty swarms than the
      target, the input comes back unchanged. Otherwise the result has
      exactly target non-empty swarms holding all the boids, every swarm of
      the input lies within one swarm of the result, and when the input
      centroids were the means the result is a valid partition. */
  method MergeToTarget(pos: seq<Vec3>, ids: seq<nat>, cents: seq<Vec3>, counts: seq<nat>, target: int)
    returns (r: Partition)
    requires |ids| == |pos| && |cents| == |counts| && Consistent(ids, counts)
    ensures target <= 0 || NonEmpty(counts) <= target ==> r == Partition(ids, cents, counts)
    ensures 0 < target < NonEmpty(counts) ==>
              |r.ids| == |ids| && |r.counts| == target && |r.centroids| == target &&
              IdsBelow(r.ids, target) &&
              (forall s | 0 <= s < target :: r.counts[s] == CountOf(r.ids, s) && r.counts[s] > 0) &&
              Total(r.counts) == |pos| &&
              (forall a, b | 0 <= a < |ids| && 0 <= b < |ids| && ids[a] == ids[b] :: r.ids[a] == r.ids[b]) &&
              (Means(pos, ids, cents, counts) ==> ValidPartition(pos, r))
    ensures 0 < target < NonEmpty(counts) ==>
              exists states, pairs :: GreedyRun(pos, states, pairs) && states[0] == MergeSnapshot(ids, cents, counts) &&
                |pairs| == NonEmpty(counts) - target && CompactionOf(r, states[|pairs|])
  {
    if target <= 0 {
      return Partition(ids, cents, counts);
    }
    var k := NonEmpty(counts);
    if k <= target {
      return Partition(ids, cents, counts);
    }
    var cur, cs, cnts := ids, cents, counts;
    ghost var states, pairs := [MergeSnapshot(ids, cents, counts)], [];
    while k > target
      invariant target <= k && MergeState(pos, ids, cents, counts, cur, cs, cnts, k)
      invariant GreedyRun(pos, states, pairs) && states[0] == MergeSnapshot(ids, cents, counts)
      invariant states[|pairs|] == MergeSnapshot(cur, cs, cnts) && k + |pairs| == NonEmpty(counts)
      decreases k
    {
      var best := ClosestPair(cs, cnts);
      var s1, s2 := best.value.0, best.value.1;
      var cur2, cs2, cnts2 := MergePair(pos, cur, cs, cnts, s1, s2);
      MergeStateStep(pos, ids, cents, counts, cur, cs, cnts, k, s1, s2, cur2, cs2, cnts2);
      GreedyRunExtend(pos, states, pairs, s1, s2, MergeSnapshot(cur2, cs2, cnts2));
      states, pairs := states + [MergeSnapshot(cur2, cs2, cnts2)], pairs + [(s1, s2)];
      cur, cs, cnts := cur2, cs2, cnts2;
      k := k - 1;
    }
    var alive := AliveIds(cnts);
    r := Compacted(pos, cur, cs, cnts, alive);
    assert GreedyRun(pos, states, pairs) && states[0] == MergeSnapshot(ids, cents, counts) &&
           |pairs| == NonEmpty(counts) - target && CompactionOf(r, states[|pairs|]);
  }

  /** Renumbering through the positions in an increasing alive list keeps
      the members of each swarm. */
  lemma RenumberedMembers(ids: seq<nat>, alive: seq<nat>, outIds: seq<nat>, x: nat)
    requires Increasing(alive) && x < |alive| && |outIds| == |ids|
    requires forall i | 0 <= i < |ids| :: outIds[i] < |alive| && alive[outIds[i]] == ids[i]
    ensures forall i | 0 <= i < |ids| :: (ids[i] == alive[x]) == (outIds[i] == x)
  {
    forall i | 0 <= i < |ids|
      ensures (ids[i] == alive[x]) == (outIds[i] == x)
    {
      if outIds[i] < x {
        assert alive[outIds[i]] < alive[x];
      } else if x < outIds[i] {
        assert alive[x] < alive[outIds[i]];
      }
    }
  }

  /** The final renumbering of the merge step: ids through the positions
      in alive, centroids and counts of the alive swarms. Boids share a
      swarm exactly when they did, and the centroids stay the means. */
  method Compacted(pos: seq<Vec3>, ids: seq<nat>, cents: seq<Vec3>, cnts: seq<nat>, alive: seq<nat>)
    returns (r: Partition)
    requires |pos| == |ids| && |cents| == |cnts| && Consistent(ids, cnts)
    requires Increasing(alive)
    requires forall x | 0 <= x < |alive| :: alive[x] < |cnts| && cnts[alive[x]] > 0
    requires forall s | 0 <= s < |cnts| && cnts[s] > 0 :: s in alive
    ensures |r.ids| == |ids| && |r.counts| == |alive| && |r.centroids| == |alive| && IdsBelow(r.ids, |alive|)
    ensures forall s | 0 <= s < |alive| :: r.counts[s] == CountOf(r.ids, s) && r.counts[s] > 0
    ensures Total(r.counts) == |pos|
    ensures forall a, b | 0 <= a < |ids| && 0 <= b < |ids| :: r.ids[a] == r.ids[b] <==> ids[a] == ids[b]
    ensures Means(pos, ids, cents, cnts) ==> ValidPartition(pos, r)
    ensures CompactionOf(r, MergeSnapshot(ids, cents, cnts))
  {
    AllAlive(ids, cnts, alive);
    var outIds := RemapAlive(ids, alive);
    var outCents := seq(|alive|, x requires 0 <= x < |alive| => cents[alive[x]]);
    var outCounts := seq(|alive|, x requires 0 <= x < |alive| => cnts[alive[x]]);
    r := Partition(outIds, outCents, outCounts);
    RemappedCounts(pos, ids, cents, cnts, alive, r);
    RemapIsCompaction(ids, cents, cnts, alive, r);
    RemappedMeans(pos, ids, cents, cnts, alive, r);
  }

  /** The renumbered counts are the member counts of the renumbered ids,
      all positive, and they add up to the number of boids. */
  lemma RemappedCounts(pos: seq<Vec3>, ids: seq<nat>, cents: seq<Vec3>, cnts: seq<nat>, alive: seq<nat>, r: Partition)
    requires |pos| == |ids| && |cents| == |cnts| && Consistent(ids, cnts) && Increasing(alive)
    requires forall x | 0 <= x < |alive| :: alive[x] < |cnts| && cnts[alive[x]] > 0
    requires |r.ids| == |ids| && forall i | 0 <= i < |ids| :: r.ids[i] < |alive| && alive[r.ids[i]] == ids[i]
    requires |r.counts| == |alive| && forall x | 0 <= x < |alive| :: r.counts[x] == cnts[alive[x]]
    ensures forall s | 0 <= s < |alive| :: r.counts[s] == CountOf(r.ids, s) && r.counts[s] > 0
    ensures Total(r.counts) == |pos|
  {
    RenumberedSwarms(pos, ids, cnts, alive, r.ids);
    CountsTotal(r.counts, r.ids);
  }

  /** When the centroids were the means, the renumbered partition is
      valid. */
  lemma RemappedMeans(pos: seq<Vec3>, ids: seq<nat>, cents: seq<Vec3>, cnts: seq<nat>, alive: seq<nat>, r: Partition)
    requires |pos| == |ids| && |cents| == |cnts| && Consistent(ids, cnts) && Increasing(alive)
    requires forall x | 0 <= x < |alive| :: alive[x] < |cnts| && cnts[alive[x]] > 0
    requires |r.ids| == |ids| && forall i | 0 <= i < |ids| :: r.ids[i] < |alive| && alive[r.ids[i]] == ids[i]
    requires |r.centroids| == |alive| && |r.counts| == |alive|
    requires forall x | 0 <= x < |alive| :: r.centroids[x] == cents[alive[x]]
    requires forall s | 0 <= s < |alive| :: r.counts[s] == CountOf(r.ids, s) && r.counts[s] > 0
    ensures Means(pos, ids, cents, cnts) ==> ValidPartition(pos, r)
  {
    if Means(pos, ids, cents, cnts) {
      RenumberedSwarms(pos, ids, cnts, alive, r.ids);
      forall x | 0 <= x < |alive|
        ensures r.centroids[x] == Centroid(pos, r.ids, x)
      {
        assert cents[alive[x]] == Centroid(pos, ids, alive[x]);
      }
    }
  }

  /** Renumbering through the positions in an increasing alive list, with
      the centroids and counts of the alive swarms, is a compaction. */
  lemma RemapIsCompaction(ids: seq<nat>, cents: seq<Vec3>, cnts: seq<nat>, alive: seq<nat>, r: Partition)
    requires |cents| == |cnts| && IdsBelow(ids, |cnts|) && Increasing(alive)
    requires forall x | 0 <= x < |alive| :: alive[x] < |cnts|
    requires |r.ids| == |ids| && forall i | 0 <= i < |ids| :: r.ids[i] < |alive| && alive[r.ids[i]] == ids[i]
    requires |r.centroids| == |alive| && |r.counts| == |alive|
    requires forall x | 0 <= x < |alive| :: r.centroids[x] == cents[alive[x]] && r.counts[x] == cnts[alive[x]]
    requires forall s | 0 <= s < |r.counts| :: r.counts[s] == CountOf(r.ids, s) && r.counts[s] > 0
    ensures CompactionOf(r, MergeSnapshot(ids, cents, cnts))
  {
    RemapKeepsOrder(ids, alive, r.ids);
  }

  /** Swarm alive[x] under ids has the same members, hence the same count
      and centroid, as swarm x under the renumbered ids. */
  lemma RenumberedSwarms(pos: seq<Vec3>, ids: seq<nat>, cnts: seq<nat>, alive: seq<nat>, outIds: seq<nat>)
    requires |pos| == |ids| && Consistent(ids, cnts) && Increasing(alive) && |outIds| == |ids|
    requires forall x | 0 <= x < |alive| :: alive[x] < |cnts|
    requires forall i | 0 <= i < |ids| :: outIds[i] < |alive| && alive[outIds[i]] == ids[i]
    ensures forall x | 0 <= x < |alive| ::
              cnts[alive[x]] == CountOf(outIds, x) && Centroid(pos, ids, alive[x]) == Centroid(pos, outIds, x)
  {
    forall x | 0 <= x < |alive|
      ensures cnts[alive[x]] == CountOf(outIds, x) && Centroid(pos, ids, alive[x]) == Centroid(pos, outIds, x)
    {
      RenumberedMembers(ids, alive, outIds, x);
      SameMembers(pos, ids, outIds, alive[x], x, Zero);
    }
  }

  /** Every id of a consistent labelling is among the alive ids. */
  lemma AllAlive(ids: seq<nat>, cnts: seq<nat>, alive: seq<nat>)
    requires Consistent(ids, cnts)
    requires forall s | 0 <= s < |cnts| && cnts[s] > 0 :: s in alive
    ensures forall i | 0 <= i < |ids| :: ids[i] in alive
  {
    forall i | 0 <= i < |ids|
      ensures ids[i] in alive
    {
      CountPositive(ids, ids[i]);
    }
  }

  /** Member counts of ids below |counts| add up to the number of boids. */
  lemma CountsTotal(counts: seq<nat>, ids: seq<nat>)
    requires IdsBelow(ids, |counts|) && forall s | 0 <= s < |counts| :: counts[s] == CountOf(ids, s)
    ensures Total(counts) == |ids|
  {
    TotalIsSumCounts(counts, ids);
    SumCountsIsLength(ids, |counts|);
  }
}
