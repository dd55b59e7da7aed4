# Murmuration core of attractor-swarms, modelled in Dafny

The murmuration mode of `attractor-swarms/attractor.js` flies a few hundred
boids inside a container. Each frame, the boids are pulled towards a path
traced by the Lorenz system. Every few frames they are partitioned into
swarms, and optionally "sparks" spread from boid to boid. This project
models the discrete part of that simulation. The continuous flocking forces
are not modelled. The modules are:

- `Geometry`: vectors, and the squared distance behind every comparison.
- `Fifo`: the bounded push-then-shift buffers, namely the Lorenz path (80
  points) and each boid's trail (10 points).
- `Lorenz`: the Lorenz derivative, its explicit Euler step, the map into the
  container, and a `LorenzField` class holding the phase and the path,
  updated in place.
- `NearestPath`: the point of the Lorenz path nearest to a boid.
- `Boids`: a `Boid` class holding position, velocity and trail.
- `Containment`: the box and pyramid containers, which clamp a boid in
  place.
- `DisjointSets`: the union-find used by the partitioner. A `UnionFind`
  class holds the parent array; find compresses the path and union links
  the roots.
- `Connectivity`: single-link components. The pairwise union loop yields
  exactly the classes of "linked by a chain of close points". The
  components are then numbered in order of first appearance.
- `SwarmStats`: counts and centroids as specification functions, plus the
  accumulation, renumbering and counting loops.
- `Swarms`: `murmurClusterBoids` in its five phases:
  - components;
  - merging of close centroids;
  - splitting of large, spread-out swarms along a random plane;
  - fading of small swarms into their nearest neighbour;
  - compaction.
- `SwarmMerge`: `murmurMergeSwarmsToTarget`. While there are too many
  non-empty swarms, it merges the two with the nearest centroids.
- `SparkSpread`: the spark life cycle, in two parts:
  - settling, every frame: linked sparks detach, and root sparks expire;
  - spreading, every eighth frame: a seed when there are no sparks,
    otherwise infection of the nearest idle boid.
- `HexColor`: `parseHexToRgb`, with JavaScript's `parseInt(·, 16)` modelled
  in full: white space, sign, `0x` prefix, longest digit run, NaN.

Two behaviours of the code are easy to misread, and the model follows the
code in both:

- The Lorenz derivative at the start phase (5, 5, 5) is (0, 110, 35/3),
  with sigma 10, rho 28 and beta 8/3 (`attractor.js:374-378`). This is
  `Lorenz.DerivativeAtStart`.
- A split is withdrawn only when the new side is empty.
  `attractor.js:564` tests `counts[newId] > 0`. A split that leaves the old
  side empty is kept, and the old id simply disappears at compaction.

## Model

| member | source | states |
|---|---|---|
| Geometry.Dist2Symmetric | attractor-swarms/attractor.js:449-450 | the squared-distance test gives the same value whichever point is subtracted from which |
| Geometry.NormalisedAxisSign | attractor-swarms/attractor.js:544-555 | dividing the random split axis by its positive length does not change the sign of the dot product the split test uses |
| Fifo.Window | attractor-swarms/attractor.js:993-994 | the last `cap` elements of a sequence, or all of it when it is shorter: what the buffer holds once the shift of :994 has run |
| Fifo.PushAll | attractor-swarms/attractor.js:990-995 | pushes each point in turn, shifting out the oldest whenever the buffer is over its cap |
| Fifo.Pushed | attractor-swarms/attractor.js:993-994 | for a buffer within its cap, push-then-shift leaves the last `cap` elements of the buffer followed by the new point |
| Fifo.WindowOfWindow | attractor-swarms/attractor.js:990-995 | trimming to the last `cap` elements before appending more and trimming again is the same as trimming once |
| Fifo.PushAllIsWindow | attractor-swarms/attractor.js:990-995 | a buffer that never exceeded its cap holds exactly the last `cap` elements ever pushed, oldest first |
| Fifo.PushedBounds | attractor-swarms/attractor.js:1253-1255 | after a push the buffer is within its cap and ends with the new element; below the cap nothing is dropped; at the cap exactly the oldest element is dropped |
| Lorenz.Derivative | attractor-swarms/attractor.js:376-378 | the Lorenz field sigma (y − x), x (rho − z) − y, x y − beta z, all read from the same phase |
| Lorenz.EulerStep | attractor-swarms/attractor.js:379-381 | the phase plus dt times the derivative, i.e. one call of murmurLorenzAdvance |
| Lorenz.Orbit | attractor-swarms/attractor.js:374-382 | k successive Euler steps of the same length from a phase |
| Lorenz.DerivativeAtStart | attractor-swarms/attractor.js:374-378 | at the start phase (5, 5, 5) the derivative is (0, 110, 35/3) |
| Lorenz.EquilibriumIff | attractor-swarms/attractor.js:376-378 | the derivative vanishes exactly at the origin and at x = y = ±√72, z = 27 (both directions) |
| Lorenz.OrbitOfEquilibrium | attractor-swarms/attractor.js:374-382 | no number of Euler steps moves an equilibrium |
| Lorenz.ToCube | attractor-swarms/attractor.js:385-393 | murmurLorenzToCube: x and the Lorenz y scaled by extent·1.05/20, the Lorenz z centred on 25 and scaled by extentY·1.05/25, with the Lorenz y becoming the cube z |
| Lorenz.FromCube | attractor-swarms/attractor.js:385-393 | the inverse of murmurLorenzToCube for non-zero extents, the partner of `Lorenz.CubeRoundTrip` |
| Lorenz.CubeRoundTrip | attractor-swarms/attractor.js:385-393 | for non-zero extents the map to the container has an inverse on both sides |
| Lorenz.ToCubeBounds | attractor-swarms/attractor.js:385-393 | the attractor's region (abs(x), abs(y) ≤ 20, 0 ≤ z ≤ 50) maps inside the container enlarged by the 1.05 fill factor |
| Lorenz.LorenzField.constructor | attractor-swarms/attractor.js:354-355 | a fresh murmuration has phase (5, 5, 5) and an empty path |
| Lorenz.LorenzField.Advance | attractor-swarms/attractor.js:374-382 | one Euler step in place, all three increments taken from the phase before the step; the path is unchanged |
| Lorenz.LorenzField.Step | attractor-swarms/attractor.js:988-995 | three Euler steps of dt/3; the path becomes the last 80 points of the old path followed by the three mapped phases, and stays within 80 |
| NearestPath.Scan | attractor-swarms/attractor.js:399-408 | the scan keeps its best index when no later point beats the best distance; otherwise it returns the first later point of least squared distance |
| NearestPath.NearestIndex | attractor-swarms/attractor.js:397-409 | when some point is nearer than 1e30, the result has least squared distance and is the earliest such point; otherwise it is index 0 |
| NearestPath.NearestOnPath | attractor-swarms/attractor.js:396-410 | no result exactly when the path has fewer than two points; otherwise a point of the path that is nearest when any point is nearer than 1e30, and the first point when none is |
| Boids.Boid.constructor | attractor-swarms/attractor.js:339-351 | a new boid has the drawn position and velocity and an empty trail |
| Boids.Boid.RecordTrail | attractor-swarms/attractor.js:1253-1255 | the trail becomes the last 10 of the old trail followed by the current position; it ends with that position |
| Containment.ClampAxis | attractor-swarms/attractor.js:716-717 | for a non-empty range the coordinate ends inside it; an in-range axis is untouched; the speed is kept; a clamped axis sits on the crossed bound, heading inwards |
| Containment.ClampInPlace | attractor-swarms/attractor.js:716-717 | the two in-place tests on one axis compute ClampAxis |
| Containment.ContainBox | attractor-swarms/attractor.js:715-724 | each axis is clamped to its range as ClampAxis says; the trail is untouched; with non-negative extents the boid ends inside the box |
| Containment.HalfWidth | attractor-swarms/attractor.js:791 | w = extent (extentY − y) / (2 extentY), the pyramid half-width at height y |
| Containment.HalfWidthRange | attractor-swarms/attractor.js:791 | at heights within the pyramid the half-width lies in [0, extent]: extent at the base and 0 at the apex |
| Containment.ContainPyramid | attractor-swarms/attractor.js:788-797 | y is clamped first; x and z are then clamped against the half-width at the new height; the trail is untouched; the boid ends inside the pyramid |
| DisjointSets.RootOf | attractor-swarms/attractor.js:439-442 | following parents from i ends at a root whose rank is at least i's (strictly higher when i is not a root) |
| DisjointSets.CompressKeepsRoots | attractor-swarms/attractor.js:440 | re-pointing a node at its root keeps a forest and changes no element's root |
| DisjointSets.LinkRoots | attractor-swarms/attractor.js:444 | hanging one root under another keeps a forest and merges exactly those two classes |
| DisjointSets.JoinAtRoots | attractor-swarms/attractor.js:444 | joining at the roots of a and b is joining the classes of a and b; joining within one class changes nothing |
| DisjointSets.LinkRanks | attractor-swarms/attractor.js:444 | `parent[find(a)] = find(b)` leaves a forest whose classes are those of a and b joined |
| DisjointSets.UnionFind.constructor | attractor-swarms/attractor.js:437-438 | n singletons: each element is its own class |
| DisjointSets.UnionFind.Find | attractor-swarms/attractor.js:439-442 | returns i's class label; path compression changes no class |
| DisjointSets.UnionFind.Union | attractor-swarms/attractor.js:443-445 | the class of a joins the class of b; nothing else changes |
| Connectivity.LinkedRefl | attractor-swarms/attractor.js:447-452 | every point is linked to itself |
| Connectivity.LinkedSym | attractor-swarms/attractor.js:447-452 | linked is symmetric |
| Connectivity.LinkedTrans | attractor-swarms/attractor.js:447-452 | linked is transitive |
| Connectivity.LinkedStep | attractor-swarms/attractor.js:450 | a point close to a linked point is linked |
| Connectivity.JoinSound | attractor-swarms/attractor.js:450 | joining the classes of two close points keeps every class made of linked points |
| Connectivity.ChainSameLabel | attractor-swarms/attractor.js:447-452 | a labelling that agrees on every close pair is constant along a chain |
| Connectivity.IdentitySound | attractor-swarms/attractor.js:437-438 | the initial singletons are classes of linked points |
| Connectivity.PairStep | attractor-swarms/attractor.js:448-451 | visiting pair (i, j) keeps the classes linked and covers every close pair visited so far |
| Connectivity.SettledIsLinked | attractor-swarms/attractor.js:447-452 | after the double loop two points share a class exactly when they are linked |
| Connectivity.UniteRow | attractor-swarms/attractor.js:448-451 | the inner loop for point i keeps the classes linked and covers every close pair up to row i |
| Connectivity.FindAll | attractor-swarms/attractor.js:455-460 | a find for every element returns each element's class and changes no class |
| Connectivity.Components | attractor-swarms/attractor.js:446-460 | two points get the same root exactly when a chain of pairs closer than r joins them (both directions) |
| Connectivity.FirstSeenStep | attractor-swarms/attractor.js:455-458 | one step of the first-appearance numbering keeps its invariant |
| Connectivity.Relabel | attractor-swarms/attractor.js:453-460 | ids are dense below k; two boids share an id exactly when they share a root; ids are numbered in order of first appearance |
| Connectivity.NumberingFacts | attractor-swarms/attractor.js:453-460 | the numbering's map gives each id once, in order of first appearance |
| Swarms.ConnectedComponents | attractor-swarms/attractor.js:446-460 | ids below k; two boids share an id exactly when a chain of boids closer than extent·clusterRadius joins them; first-appearance order |
| Swarms.MergeNearby | attractor-swarms/attractor.js:484-503 | two boids share a merged id exactly when the centroids of their swarms are chained by distances below mergeR; first-appearance order |
| Swarms.SpreadBelowIsRootTest | attractor-swarms/attractor.js:539-541 | the square-root-free test agrees with `sqrt(variance) < extent·0.25` |
| Swarms.VarianceSum | attractor-swarms/attractor.js:532-538 | the loop's sum is the sum of squared distances of the members from the centroid |
| Swarms.MoveNegativeSide | attractor-swarms/attractor.js:551-563 | exactly the members on the negative side of the plane get the new id; `moved > 0` exactly when some member is there |
| Swarms.SplitSwarm | attractor-swarms/attractor.js:530-563 | a swarm of at least 70 whose spread is not below extent·0.25 sends its negative-side members to the new id; otherwise nothing changes; `used` says whether anyone moved |
| Swarms.SplitStep | attractor-swarms/attractor.js:530-589 | one swarm's turn of the split pass keeps the pass's invariant: a new id only when someone moved, withdrawn otherwise |
| Swarms.SplitDone | attractor-swarms/attractor.js:530-590 | after the pass, unmoved boids keep their id; moved boids have new ids that separate their original swarms and are ordered as those swarms are |
| Swarms.SplitTurn | attractor-swarms/attractor.js:530-588 | one swarm's turn keeps the pass's invariant, a kept split taking the next id |
| Swarms.SplitOutcome | attractor-swarms/attractor.js:530-590 | the pass's invariant at its end, stated for the boids that move |
| Swarms.SplitLarge | attractor-swarms/attractor.js:528-590 | boids that do not move keep their id; the movers from one swarm share one new id of at least k; movers from different swarms get different ids, numbered k, k+1, … in the order of the swarms they left (`newId = nextId++`); every new id is in use |
| Swarms.ScanOther | attractor-swarms/attractor.js:616-628 | the scan returns -1 or another non-empty swarm; the best is kept when none beats it; otherwise the first nearest such swarm |
| Swarms.NearestOther | attractor-swarms/attractor.js:614-628 | -1 exactly when no other non-empty swarm is nearer than 1e30; otherwise the nearest one, lowest index among ties |
| Swarms.FadeOne | attractor-swarms/attractor.js:614-633 | one turn of the fade loop: a swarm under 8 members, when there is more than one swarm, hands all its boids to its nearest other non-empty swarm, if there is one |
| Swarms.FadeFrom | attractor-swarms/attractor.js:614-634 | the fade loop from swarm s to the last, each turn using the counts and centroids taken before the pass |
| Swarms.FadeOneMoves | attractor-swarms/attractor.js:629-633 | a fade turn moves only boids of a small swarm, and moves all of a swarm's boids to the same place |
| Swarms.FadeKeepsRange | attractor-swarms/attractor.js:614-634 | the fade pass keeps every id below the number of swarms |
| Swarms.FadeKeepsLarge | attractor-swarms/attractor.js:615 | a boid whose swarm had at least 8 members, or the only swarm, keeps its id through the pass |
| Swarms.FadeCoarsens | attractor-swarms/attractor.js:614-634 | boids that shared a swarm before the fade pass share one after it |
| Swarms.FadeOneEmpties | attractor-swarms/attractor.js:629-633 | a swarm that fades is left with no boids |
| Swarms.NearestOtherSwarm | attractor-swarms/attractor.js:616-628 | the scan loop computes NearestOther |
| Swarms.FadeTurn | attractor-swarms/attractor.js:615-633 | one swarm's turn of the fade loop computes FadeOne |
| Swarms.FadeSmall | attractor-swarms/attractor.js:591-634 | the fade loop, with counts and centroids taken before it, computes the fade pass over all swarms |
| Swarms.AliveSwarms | attractor-swarms/attractor.js:635-640 | alive lists exactly the non-empty swarms, in increasing order |
| Swarms.Compact | attractor-swarms/attractor.js:635-668 | the result is a valid partition: dense ids, positive counts equal to the member counts, centroids that are the means; it keeps which boids share a swarm and the order of the swarms |
| Swarms.ComponentIds | attractor-swarms/attractor.js:446-460 | the relation phase 1 computes: two boids share an id exactly when a chain of boids, each pair closer than r, joins them |
| Swarms.MergedIds | attractor-swarms/attractor.js:484-503 | the relation phase 2 computes: two boids share a merged id exactly when the centroids of their components are chained closer than mergeR |
| Swarms.SplitIds | attractor-swarms/attractor.js:528-590 | the relation phase 3 computes: boids that do not move keep their id, movers get ids from k up, and movers share a new id exactly when they left the same swarm |
| Swarms.KeepsLinked | attractor-swarms/attractor.js:446-503 | boids joined by a chain of points closer than r share an id |
| Swarms.SameGrouping | attractor-swarms/attractor.js:635-668 | the renumbering keeps which boids share a swarm and the order of the swarm ids |
| Swarms.MergeKeepsLinked | attractor-swarms/attractor.js:446-503 | merging only joins components: boids linked below extent·clusterRadius end in one merged swarm |
| Swarms.SameSideSameSwarm | attractor-swarms/attractor.js:528-668 | boids of one merged swarm that are on the same side of its split end in one swarm: the split separates only by side, fading only coarsens and compaction keeps co-membership |
| Swarms.ClusterBoids | attractor-swarms/attractor.js:435-669 | the result is a valid partition whose counts add up to the number of boids, and empty when there are no boids; the ids after each phase are returned as ghost results, each tied to its phase: components of the chain relation below extent·clusterRadius, merging of centroids chained below extent·mergeRadius, the split with movers renumbered per swarm, the fade pass FadeFrom on the pre-pass counts and centroids, and a final renumbering that keeps grouping and order; end to end, linked boids share a merged swarm, and boids of one merged swarm on the same side of its split share a final swarm |
| SwarmStats.CountPositive | attractor-swarms/attractor.js:636-639 | a swarm's count is positive exactly when some boid carries its id |
| SwarmStats.SameMembers | attractor-swarms/attractor.js:512-527 | two labellings with the same members for a swarm give the same count, sum, centroid and spread |
| SwarmStats.CountReplace | attractor-swarms/attractor.js:691-693 | moving the boids of one swarm to another empties the first and adds its count to the second |
| SwarmStats.SumCountsIsLength | attractor-swarms/attractor.js:468-475 | with every id below k, the counts of swarms 0..k-1 add up to the number of boids |
| SwarmStats.PartitionTotal | attractor-swarms/attractor.js:668 | the counts of a valid partition add up to the number of boids; no boids means all empty |
| SwarmStats.Accumulate | attractor-swarms/attractor.js:462-483 | the add-then-divide loops compute every swarm's member count and mean position |
| SwarmStats.CountMembers | attractor-swarms/attractor.js:637-638 | the counting loop counts the boids of swarm s |
| SwarmStats.Reassign | attractor-swarms/attractor.js:630-632 | the loop replaces one swarm id by another at every boid, and nowhere else |
| SwarmStats.RemapAlive | attractor-swarms/attractor.js:641-643 | each id is renumbered to its position in the alive list |
| SwarmStats.RemapKeepsOrder | attractor-swarms/attractor.js:641-643 | renumbering through an increasing alive list keeps which boids share a swarm and the order of swarm ids |
| SwarmMerge.NonEmptyUpdate | attractor-swarms/attractor.js:692-693 | changing one swarm's count changes the non-empty count by that swarm alone |
| SwarmMerge.TwoNonEmpty | attractor-swarms/attractor.js:690 | with at least two non-empty swarms a pair exists, so the loop's break is never taken |
| SwarmMerge.ClosestPairUnique | attractor-swarms/attractor.js:681-689 | at most one pair is the earliest closest pair |
| SwarmMerge.VisitPair | attractor-swarms/attractor.js:683-688 | visiting (s1, s2) keeps "best is the earliest closest pair among those visited" |
| SwarmMerge.RowStart | attractor-swarms/attractor.js:683 | the pairs before (s1, s1+1) in a row add no candidate |
| SwarmMerge.NextRow | attractor-swarms/attractor.js:681-682 | an empty swarm's row, or a finished row, moves on to the next row |
| SwarmMerge.AllVisited | attractor-swarms/attractor.js:681-690 | after the double loop, no pair exactly when fewer than two swarms are non-empty; otherwise the earliest closest pair |
| SwarmMerge.ScanRow | attractor-swarms/attractor.js:683-688 | the inner loop visits the row of a non-empty swarm |
| SwarmMerge.ClosestPair | attractor-swarms/attractor.js:680-689 | no pair exactly when fewer than two swarms are non-empty; otherwise the earliest pair of distinct non-empty swarms with the least centroid distance |
| SwarmMerge.SumMembers | attractor-swarms/attractor.js:695-699 | the loop sums the positions of the members of s |
| SwarmMerge.Merged | attractor-swarms/attractor.js:691-701 | one merge: s2's boids take id s1, s1's count absorbs s2's and s2's becomes 0, and s1's centroid is the member sum divided by the count when it is positive |
| SwarmMerge.MergePair | attractor-swarms/attractor.js:691-701 | the loop computes `Merged`: s2's boids move to s1; s1's count absorbs s2's and s2's becomes 0; only s1's centroid changes, to the mean of its members; one non-empty swarm fewer |
| SwarmMerge.MergedFacts | attractor-swarms/attractor.js:691-701 | a merge keeps the counts equal to the member counts, makes s1's centroid its mean, and leaves one non-empty swarm fewer |
| SwarmMerge.RunsAgree | attractor-swarms/attractor.js:678-702 | two greedy runs from one state agree step by step |
| SwarmMerge.GreedyRun | attractor-swarms/attractor.js:679-703 | the sequence of states the while loop passes through: each step merges the earliest closest pair of the current state |
| SwarmMerge.GreedyRunUnique | attractor-swarms/attractor.js:678-702 | the sequence of closest-pair merges from a state is unique, ties included |
| SwarmMerge.GreedyRunExtend | attractor-swarms/attractor.js:678-702 | merging the current closest pair extends a greedy run by one step |
| SwarmMerge.AliveIds | attractor-swarms/attractor.js:704-705 | alive lists exactly the non-empty swarms, increasing; its length is the non-empty count |
| SwarmMerge.MergeStateStep | attractor-swarms/attractor.js:679-703 | one merge keeps counts consistent and centroids the means, keeps boids together, and lowers K by one |
| SwarmMerge.MergeToTarget | attractor-swarms/attractor.js:671-712 | a non-positive target, or no more non-empty swarms than the target, returns the input; otherwise the result is the compaction of the (unique) greedy run of NonEmpty − target merges, each joining the earliest closest pair of non-empty centroids; exactly target non-empty swarms, every input swarm kept whole, counts adding up to the number of boids, and a valid partition when the input centroids were means |
| SwarmMerge.RenumberedMembers | attractor-swarms/attractor.js:706-708 | renumbering keeps the members of each alive swarm |
| SwarmMerge.Compacted | attractor-swarms/attractor.js:704-711 | the output ids are dense over the alive swarms; counts are the positive member counts and add up to the number of boids; boids share an id exactly as before and ids keep their order; each output swarm has the count and centroid of the swarm it renumbers; valid when the centroids were means |
| SwarmMerge.CompactionOf | attractor-swarms/attractor.js:704-711 | the output of the alive/remap/out arrays: surviving ids renumbered 0, 1, … in increasing order, each keeping its members, count and centroid |
| SwarmMerge.RemapIsCompaction | attractor-swarms/attractor.js:704-711 | renumbering through positions in `alive` keeps members, order, counts and centroids |
| SwarmMerge.RemappedCounts | attractor-swarms/attractor.js:704-711 | the renumbered counts are the positive member counts and add up to the number of boids |
| SwarmMerge.RemappedMeans | attractor-swarms/attractor.js:704-711 | renumbered mean centroids stay the means |
| SwarmMerge.RenumberedSwarms | attractor-swarms/attractor.js:706-710 | each alive swarm keeps its count and centroid under its new number |
| SwarmMerge.AllAlive | attractor-swarms/attractor.js:705-708 | every id in use is in the alive list, so the remap is defined for every boid |
| SwarmMerge.CountsTotal | attractor-swarms/attractor.js:710 | member counts of ids below the number of swarms add up to the number of boids |
| SparkSpread.Round | attractor-swarms/attractor.js:1014 | Math.round lands within a half of its argument |
| SparkSpread.DurationSec | attractor-swarms/attractor.js:1013 | the spark duration is never negative (default 4); it is 0 exactly when the setting is at most 0 |
| SparkSpread.DurationFrames | attractor-swarms/attractor.js:1014 | Infinity exactly when the duration is 0; otherwise the rounded number of frames at 60 per second |
| SparkSpread.LineFrames | attractor-swarms/attractor.js:1015-1016 | the line duration is between 15 and 120 frames |
| SparkSpread.Rate | attractor-swarms/attractor.js:1049 | the spread rate lies in [0.05, 1] and is the setting (default 0.4) when that already does |
| SparkSpread.IdleGood | attractor-swarms/attractor.js:349-350 | boids as created satisfy the spark invariants |
| SparkSpread.Deadline | attractor-swarms/attractor.js:1039 | frameCount + durationFrames, which stays Infinity (never reached) when the duration is 0; also used by the seed at :1066 |
| SparkSpread.Settle | attractor-swarms/attractor.js:1019-1044 | idle boids are untouched; a linked spark stays exactly when its line is not over and it is within the detach distance of its infector, and is cleared otherwise; a root spark gets a deadline when unset and expires when the frame reaches it, never with a zero duration; a surviving root spark whose deadline was set is left exactly as it was |
| SparkSpread.SettleAll | attractor-swarms/attractor.js:1018-1045 | the settling loop: every boid goes through the per-boid transition, all against the positions of the same frame |
| SparkSpread.SettleAllShrinks | attractor-swarms/attractor.js:1018-1045 | settling never makes a spark and only ever clears infectors |
| SparkSpread.SettleAllGood | attractor-swarms/attractor.js:1018-1045 | settling keeps the invariants: infectors are boids, idle boids have none, no spark has more than 4 children |
| SparkSpread.Settling | attractor-swarms/attractor.js:1018-1045 | the in-place loop leaves every boid settled |
| SparkSpread.SparkIndices | attractor-swarms/attractor.js:1053-1056 | the list holds exactly the sparks' indices |
| SparkSpread.ChildCount | attractor-swarms/attractor.js:1057-1061 | positive exactly when some boid's infector is si |
| SparkSpread.SparkIndicesUpdate | attractor-swarms/attractor.js:1054-1055 | changing one boid changes the spark count by that boid alone |
| SparkSpread.ChildCountUpdate | attractor-swarms/attractor.js:1057-1061 | changing one boid changes a child count by that boid alone |
| SparkSpread.ChildCountShrinks | attractor-swarms/attractor.js:1021-1044 | clearing infectors never adds children |
| SparkSpread.CollectSparks | attractor-swarms/attractor.js:1052-1056 | the loop collects the sparks' indices in increasing order |
| SparkSpread.CountChildren | attractor-swarms/attractor.js:1057-1061 | the closure counts the boids infected by si |
| SparkSpread.ScanStep | attractor-swarms/attractor.js:1076-1081 | one step of the victim scan keeps its invariant |
| SparkSpread.ScanIdle | attractor-swarms/attractor.js:1074-1081 | the scan returns -1 when no other idle boid is within the bound; otherwise the first nearest such boid |
| SparkSpread.NearestIdle | attractor-swarms/attractor.js:1073-1081 | spark si's victim: the first nearest other idle boid within the bound, or -1 |
| SparkSpread.NearestIdleUnique | attractor-swarms/attractor.js:1074-1081 | the victim is unique |
| SparkSpread.NearestIdleBoid | attractor-swarms/attractor.js:1073-1081 | the scan loop finds NearestIdle |
| SparkSpread.InfectOne | attractor-swarms/attractor.js:1071-1086 | sparks are untouched; a boid changes only if it is si's nearest idle boid within the bound, si has fewer than 4 children and the coin is at most the rate; it then becomes a linked spark of si whose line lasts lineFrames; conversely, with fewer than 4 children, a coin at most the rate and an idle boid within the bound, exactly the nearest one is infected, and otherwise nothing changes |
| SparkSpread.InfectOneGood | attractor-swarms/attractor.js:1071-1086 | one infection keeps the invariants and adds at most one spark |
| SparkSpread.InfectAll | attractor-swarms/attractor.js:1070-1087 | the for-of loop over the spark indices taken before it, each turn seeing the infections made by the earlier turns |
| SparkSpread.InfectAllGood | attractor-swarms/attractor.js:1070-1087 | the loop over the sparks present at its start keeps the invariants, keeps every spark, and adds at most one spark per listed spark |
| SparkSpread.SeedIndex | attractor-swarms/attractor.js:1063 | floor(pick·n) is a boid index |
| SparkSpread.Seed | attractor-swarms/attractor.js:1062-1066 | the boid at floor(pick·n) becomes a root spark with the deadline frameCount + durationFrames, its line deadline untouched |
| SparkSpread.SeedOneRoot | attractor-swarms/attractor.js:1062-1066 | seeding with no sparks leaves exactly one spark, a root spark, and keeps the invariants |
| SparkSpread.SpreadStep | attractor-swarms/attractor.js:1047-1088 | nothing happens off every eighth frame, nor without sparks when the seed coin is at least 0.15 |
| SparkSpread.SpreadStepGood | attractor-swarms/attractor.js:1047-1088 | a spreading frame keeps the invariants, never puts out a spark, and at most doubles the sparks plus one |
| SparkSpread.InfectTurn | attractor-swarms/attractor.js:1071-1086 | one spark's turn in place computes InfectOne |
| SparkSpread.Spread | attractor-swarms/attractor.js:1047-1089 | the spreading block in place computes SpreadStep |
| SparkSpread.InfectLoop | attractor-swarms/attractor.js:1070-1087 | the loop over the listed sparks computes InfectAll |
| SparkSpread.SparkStep | attractor-swarms/attractor.js:1012-1089 | with spreading off nothing changes; otherwise settling, then spreading; the invariants are kept |
| HexColor.DigitValue | attractor-swarms/attractor.js:201-203 | a hexadecimal digit of either case has a value in [0, 16) |
| HexColor.Digit | attractor-swarms/attractor.js:201-203 | the lower-case digit for d is a digit whose value is d |
| HexColor.TrimStart | attractor-swarms/attractor.js:201-203 | parseInt's leading-space skip leaves no more than it was given, and what is left does not start with white space |
| HexColor.TrimStartDropsSpace | attractor-swarms/attractor.js:201-203 | what trimming leaves is a suffix of the input, and every unit it dropped is white space |
| HexColor.LeadingDigits | attractor-swarms/attractor.js:201-203 | the length of the longest run of digits at the start |
| HexColor.Unsigned | attractor-swarms/attractor.js:201-203 | NaN exactly when the text does not start with a digit; otherwise a value in [0, 16^length) |
| HexColor.LeadingDigitsRun | attractor-swarms/attractor.js:201-203 | a digit run followed by the end or a non-digit is the whole leading run |
| HexColor.UnsignedRun | attractor-swarms/attractor.js:201-203 | the value read is that of the longest leading digit run; what follows it is ignored |
| HexColor.ParseIntHex | attractor-swarms/attractor.js:201-203 | parseInt(s, 16) is NaN or a value of absolute value below 16^length |
| HexColor.ParseSkipsSpace | attractor-swarms/attractor.js:201-203 | leading white space does not change what parseInt reads |
| HexColor.ParseMinus | attractor-swarms/attractor.js:201-203 | a leading minus negates the value read after an optional 0x |
| HexColor.ParsePlus | attractor-swarms/attractor.js:201-203 | a leading plus is skipped |
| HexColor.ParseNaN | attractor-swarms/attractor.js:201-203 | no sign and no digit after the white space gives NaN |
| HexColor.ParseFromDigit | attractor-swarms/attractor.js:201-203 | a string starting with a digit has no white space or sign to skip |
| HexColor.UnsignedTwoDigits | attractor-swarms/attractor.js:201-203 | two digits have the value 16·first + second |
| HexColor.ParseTwoDigits | attractor-swarms/attractor.js:201-203 | parseInt of two hexadecimal digits is their value |
| HexColor.ParseHexToRgb | attractor-swarms/attractor.js:198-206 | a missing or empty setting gives the fallback (0, 212, 255); every channel lies in [-255, 255] |
| HexColor.Channel | attractor-swarms/attractor.js:202-205 | parseInt of the channel text in base 16, with the per-channel default (0, 212, 255) when it is NaN |
| HexColor.ChannelText | attractor-swarms/attractor.js:201-203 | a channel is read from two code units: `h.slice(2k, 2k + 2)` or `h[k] + h[k]` |
| HexColor.NegativeRed | attractor-swarms/attractor.js:198-205 | "-f0000" gives red −15, green 0 and blue 0 |
| HexColor.ChannelBound | attractor-swarms/attractor.js:201-204 | each channel lies in [-255, 255] |
| HexColor.ChannelSix | attractor-swarms/attractor.js:201-204 | a six-digit channel written with two digits is their value |
| HexColor.ChannelShort | attractor-swarms/attractor.js:201-204 | a three-digit channel written with a digit is 17 times its value |
| HexColor.ReadChannels | attractor-swarms/attractor.js:199-204 | with or without one '#', a three- or six-unit setting is read channel by channel |
| HexColor.SixChannels | attractor-swarms/attractor.js:201-203 | six digits read as three two-digit channels |
| HexColor.ParseFormat6 | attractor-swarms/attractor.js:198-205 | reading back a colour's "#rrggbb" text gives that colour |
| HexColor.ParseShortForm | attractor-swarms/attractor.js:201-205 | "#rgb" reads each digit doubled, 17 times its value |
| HexColor.WrongLengthFallback | attractor-swarms/attractor.js:200 | a setting whose length without one leading '#' is neither 3 nor 6 gives the fallback |
| HexColor.ParseSixDigits | attractor-swarms/attractor.js:199-205 | six digits read the same with or without '#', and each channel is the value of its digit pair, in [0, 255] |

## Left out

- Floating point: numbers are exact reals. Rounding of the Euler steps, the
  centroid divisions and the distance sums is not modelled. JavaScript
  `-0`, NaN and Infinity settings are not modelled either, except the
  duration Infinity, which is the `Forever` case.
- The square roots are left out. The split test compares the variance with
  the squared threshold, as `Swarms.SpreadBelowIsRootTest` shows.
- Randomness is taken as input:
  - the split axis per swarm (`axis`);
  - the seed coin and the seed pick;
  - one spread coin per boid, `Draws.rolls`.
  The source draws a spread coin only for sparks with fewer than 4
  children, in list order. The model indexes the coins by spark, so which
  coin goes to which spark is not modelled.
- Frame numbers, the setting values and the container extent are
  parameters. The breathing extent and its sine, and the tween between
  container shapes, are not part of this model.
- `SparkSpread`: the spark fields live in an array beside the boids rather
  than as fields of the boid objects. The spark block only reads positions
  and writes spark fields, so nothing is lost. Aliasing between the two is
  not modelled.
- A setting left unset (`??`) is `None` in `Config`. A value that is not a
  string reaches `HexColor.ParseHexToRgb` as `None`.
- Containers other than box and pyramid, and the flocking forces
  (cohesion, alignment, separation, noise, the Lorenz pull, the bounce and
  the curve), are not part of this model. These are the sphere, ellipsoid,
  cylinder, cone, torus, dome, superquadric and the polyhedra.
- Drawing, the settings panel and the Rössler and plain-Lorenz modes are
  not part of this model.
- Connectivity.FindAll: the source calls `find(i)` again in the second
  numbering loop. The model reuses the roots of one find pass, which are
  the same because a find changes no class.
- Swarms.SplitLarge: the centroid and count bookkeeping of the split
  (`attractor.js:557-588`) is not modelled. Everything after it
  recomputes counts and centroids from the ids (`attractor.js:590-612`),
  so the ids are what the model tracks. The net effect of the `push` and
  `pop` on the arrays is a new id that is in use.
- SwarmMerge.MergeToTarget: modelled for counts that are the member counts
  of the ids, the form `murmurClusterBoids` returns. On such input the
  `break` at `attractor.js:690` cannot be taken (`SwarmMerge.TwoNonEmpty`).
  The behaviour with inconsistent counts is not modelled.
- SparkSpread.SparkStep: requires the spark invariants (`Good`). All idle
  boids satisfy them (`SparkSpread.IdleGood`), and the step keeps them, so
  every reachable state does.
- HexColor.ParseHexToRgb: a channel can be negative, for example
  "-f0000" gives red −15 (`HexColor.NegativeRed`). The model keeps that
  value, as the source does.
  The colour library that later clamps it is not part of this model.
