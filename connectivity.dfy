/** Single-link clustering of points: two points are in one component when a
    chain of points, each closer than the radius to the next, joins them.
    The components are found with the disjoint-set forest and then numbered
    densely in order of first appearance. */
module Connectivity {
  import opened Geometry
  import opened DisjointSets

  /** The source's test `dx*dx + dy*dy + dz*dz < r*r`. */
  ghost predicate Close(pts: seq<Vec3>, r2: real, a: nat, b: nat)
    requires a < |pts| && b < |pts|
  {
    Dist2(pts[a], pts[b]) < r2
  }

  /** A non-empty sequence of indices, each close to the next. */
  ghost predicate IsChain(pts: seq<Vec3>, r2: real, c: seq<nat>) {
    |c| >= 1 &&
    (forall k | 0 <= k < |c| :: c[k] < |pts|) &&
    forall k | 0 <= k < |c| - 1 :: Dist2(pts[c[k]], pts[c[k + 1]]) < r2
  }

  /** a and b lie in one component. */
  ghost predicate Linked(pts: seq<Vec3>, r2: real, a: nat, b: nat) {
    exists c :: IsChain(pts, r2, c) && c[0] == a && c[|c| - 1] == b
  }

  lemma LinkedRefl(pts: seq<Vec3>, r2: real, a: nat)
    requires a < |pts|
    ensures Linked(pts, r2, a, a)
  {
    assert IsChain(pts, r2, [a]);
  }

  /** A linked pair stays linked when a close point is appended. */
  lemma LinkedStep(pts: seq<Vec3>, r2: real, a: nat, b: nat, d: nat)
    requires b < |pts| && d < |pts| && Linked(pts, r2, a, b) && Close(pts, r2, b, d)
    ensures Linked(pts, r2, a, d)
  {
    var c :| IsChain(pts, r2, c) && c[0] == a && c[|c| - 1] == b;
    var c2 := c + [d];
    assert forall k | 0 <= k < |c| :: c2[k] == c[k];
    assert c2[|c|] == d;
    assert IsChain(pts, r2, c2);
  }

  lemma LinkedSym(pts: seq<Vec3>, r2: real, a: nat, b: nat)
    requires Linked(pts, r2, a, b)
    ensures Linked(pts, r2, b, a)
  {
    var c :| IsChain(pts, r2, c) && c[0] == a && c[|c| - 1] == b;
    var m := |c|;
    var rc := seq(m, k requires 0 <= k < m => c[m - 1 - k]);
    forall k | 0 <= k < m - 1
      ensures Dist2(pts[rc[k]], pts[rc[k + 1]]) < r2
    {
      var j := m - 2 - k;
      assert rc[k] == c[j + 1] && rc[k + 1] == c[j];
      Dist2Symmetric(pts[c[j]], pts[c[j + 1]]);
    }
    assert IsChain(pts, r2, rc);
  }

  lemma LinkedTrans(pts: seq<Vec3>, r2: real, a: nat, b: nat, d: nat)
    requires Linked(pts, r2, a, b) && Linked(pts, r2, b, d)
    ensures Linked(pts, r2, a, d)
  {
    var c1 :| IsChain(pts, r2, c1) && c1[0] == a && c1[|c1| - 1] == b;
    var c2 :| IsChain(pts, r2, c2) && c2[0] == b && c2[|c2| - 1] == d;
    var c := c1 + c2[1..];
    forall k | 0 <= k < |c| - 1
      ensures Dist2(pts[c[k]], pts[c[k + 1]]) < r2
    {
      if k + 1 < |c1| {
        assert c[k] == c1[k] && c[k + 1] == c1[k + 1];
      } else {
        var j := k - |c1| + 1;
        assert c[k] == c2[j] && c[k + 1] == c2[j + 1];
      }
    }
    assert IsChain(pts, r2, c);
  }

  /** Every pair sharing a label is linked. */
  ghost predicate Sound(labels: seq<nat>, pts: seq<Vec3>, r2: real) {
    |labels| == |pts| &&
    forall a, b | 0 <= a < |labels| && 0 <= b < |labels| && labels[a] == labels[b] :: Linked(pts, r2, a, b)
  }

  /** Every close pair (a, b), a < b, visited before (i, j) in the source's
      double loop shares a label. */
  ghost predicate ClosedBefore(labels: seq<nat>, pts: seq<Vec3>, r2: real, i: nat, j: nat) {
    |labels| == |pts| &&
    forall a, b | 0 <= a < b < |labels| && (a < i || (a == i && b < j)) && Close(pts, r2, a, b) ::
      labels[a] == labels[b]
  }

  /** Joining the classes of two close points keeps every class linked. */
  lemma JoinSound(labels: seq<nat>, pts: seq<Vec3>, r2: real, x: nat, y: nat)
    requires Sound(labels, pts, r2) && x < |pts| && y < |pts| && Close(pts, r2, x, y)
    ensures Sound(Join(labels, x, y), pts, r2)
  {
    var J := Join(labels, x, y);
    forall a, b | 0 <= a < |J| && 0 <= b < |J| && J[a] == J[b]
      ensures Linked(pts, r2, a, b)
    {
      if labels[a] == labels[b] {
      } else if labels[a] == labels[x] {
        // b was in the class of y
        LinkedStep(pts, r2, a, x, y);
        LinkedTrans(pts, r2, a, y, b);
      } else {
        // a was in the class of y, b in the class of x
        assert labels[b] == labels[x] && labels[a] == labels[y];
        Dist2Symmetric(pts[x], pts[y]);
        LinkedStep(pts, r2, a, y, x);
        LinkedTrans(pts, r2, a, x, b);
      }
    }
  }

  /** A labelling that agrees on every close pair is constant along a
      chain. */
  lemma {:induction false} ChainSameLabel(labels: seq<nat>, pts: seq<Vec3>, r2: real, c: seq<nat>)
    requires |labels| == |pts| && IsChain(pts, r2, c)
    requires forall a, b | 0 <= a < |pts| && 0 <= b < |pts| && Close(pts, r2, a, b) :: labels[a] == labels[b]
    ensures labels[c[0]] == labels[c[|c| - 1]]
  {
    if |c| > 1 {
      var init := c[..|c| - 1];
      assert IsChain(pts, r2, init) by {
        assert forall k | 0 <= k < |init| :: init[k] == c[k];
      }
      ChainSameLabel(labels, pts, r2, init);
      assert Close(pts, r2, c[|c| - 2], c[|c| - 1]);
    }
  }

  /** Each point alone in its class is a sound labelling. */
  lemma IdentitySound(pts: seq<Vec3>, r2: real)
    ensures Sound(seq(|pts|, i => i), pts, r2)
  {
    var L := seq(|pts|, i => i);
    forall a, b | 0 <= a < |L| && 0 <= b < |L| && L[a] == L[b]
      ensures Linked(pts, r2, a, b)
    {
      LinkedRefl(pts, r2, a);
    }
  }

  /** One step of the double loop: a close pair (i, j) is united (in either
      direction), a distant one is skipped; either way the labels stay sound
      and every pair up to (i, j) is settled. */
  lemma {:induction false} PairStep(L: seq<nat>, L2: seq<nat>, pts: seq<Vec3>, r2: real, i: nat, j: nat)
    requires Sound(L, pts, r2) && ClosedBefore(L, pts, r2, i, j) && i < j < |pts|
    requires if Close(pts, r2, i, j) then L2 == Join(L, i, j) || L2 == Join(L, j, i) else L2 == L
    ensures Sound(L2, pts, r2) && ClosedBefore(L2, pts, r2, i, j + 1)
  {
    if Close(pts, r2, i, j) {
      if L2 == Join(L, i, j) {
        JoinSound(L, pts, r2, i, j);
      } else {
        Dist2Symmetric(pts[i], pts[j]);
        JoinSound(L, pts, r2, j, i);
      }
    }
  }

  /** After the last point every close pair shares a label, so a sound
      labelling is exactly the component relation. */
  lemma {:induction false} SettledIsLinked(L: seq<nat>, pts: seq<Vec3>, r2: real)
    requires Sound(L, pts, r2) && ClosedBefore(L, pts, r2, |pts|, 0)
    ensures forall a, b | 0 <= a < |pts| && 0 <= b < |pts| :: L[a] == L[b] <==> Linked(pts, r2, a, b)
  {
    forall a, b | 0 <= a < |pts| && 0 <= b < |pts| && Close(pts, r2, a, b)
      ensures L[a] == L[b]
    {
      if b < a {
        Dist2Symmetric(pts[a], pts[b]);
      }
    }
    forall a, b | 0 <= a < |pts| && 0 <= b < |pts| && Linked(pts, r2, a, b)
      ensures L[a] == L[b]
    {
      var c :| IsChain(pts, r2, c) && c[0] == a && c[|c| - 1] == b;
      ChainSameLabel(L, pts, r2, c);
    }
  }

  /** The inner loop of the pairwise pass: point i against every later
      point, uniting the close ones. */
  method UniteRow(uf: UnionFind, pts: seq<Vec3>, r2: real, i: nat, joinLater: bool)
    requires uf.Valid() && uf.parent.Length == |pts| && i < |pts|
    requires Sound(uf.Labels(), pts, r2) && ClosedBefore(uf.Labels(), pts, r2, i, i + 1)
    modifies uf, uf.parent
    ensures uf.Valid() && uf.parent == old(uf.parent)
    ensures Sound(uf.Labels(), pts, r2) && ClosedBefore(uf.Labels(), pts, r2, i + 1, 0)
  {
    var j := i + 1;
    while j < |pts|
      invariant i + 1 <= j <= |pts|
      invariant uf.Valid() && uf.parent == old(uf.parent)
      invariant Sound(uf.Labels(), pts, r2) && ClosedBefore(uf.Labels(), pts, r2, i, j)
    {
      ghost var L := uf.Labels();
      if Dist2(pts[i], pts[j]) < r2 {
        if joinLater {
          uf.Union(i, j);
        } else {
          uf.Union(j, i);
        }
      }
      PairStep(L, uf.Labels(), pts, r2, i, j);
      j := j + 1;
    }
  }

  /** A find for every element, in order: the label of each. */
  method FindAll(uf: UnionFind) returns (roots: seq<nat>)
    requires uf.Valid()
    modifies uf.parent
    ensures uf.Valid() && uf.Labels() == old(uf.Labels()) && roots == uf.Labels()
  {
    roots := [];
    var i := 0;
    while i < uf.parent.Length
      invariant 0 <= i <= uf.parent.Length && |roots| == i
      invariant uf.Valid() && uf.Labels() == old(uf.Labels())
      invariant forall a | 0 <= a < i :: roots[a] == uf.Labels()[a]
    {
      var r := uf.Find(i);
      roots := roots + [r];
      i := i + 1;
    }
  }

  /** The source's pairwise union loop followed by a find for every point:
      roots[a] == roots[b] exactly when a and b are linked. With `joinLater`
      the class of the earlier point of a close pair joins the class of the
      later one (`parent[find(i)] = find(j)`), otherwise the other way round
      (`swarmParent[findSwarm(s2)] = findSwarm(s1)`). */
  method Components(pts: seq<Vec3>, r2: real, joinLater: bool) returns (roots: seq<nat>)
    ensures |roots| == |pts|
    ensures forall a, b | 0 <= a < |pts| && 0 <= b < |pts| :: roots[a] == roots[b] <==> Linked(pts, r2, a, b)
  {
    var n := |pts|;
    var uf := new UnionFind(n);
    IdentitySound(pts, r2);
    var i := 0;
    while i < n
      invariant 0 <= i <= n
      invariant fresh(uf) && fresh(uf.parent) && uf.Valid() && uf.parent.Length == n
      invariant Sound(uf.Labels(), pts, r2) && ClosedBefore(uf.Labels(), pts, r2, i, 0)
    {
      UniteRow(uf, pts, r2, i, joinLater);
      i := i + 1;
    }
    SettledIsLinked(uf.Labels(), pts, r2);
    roots := FindAll(uf);
  }

  /** Some index below `before` carries id s. */
  ghost predicate OccursBefore(ids: seq<nat>, s: nat, before: nat) {
    exists j | 0 <= j < before && j < |ids| :: ids[j] == s
  }

  /** The state of the first pass of Relabel after i labels: every label
      seen has an id below k, and id s was handed out at index first[s]. */
  ghost predicate FirstSeen(labels: seq<nat>, comp: map<nat, nat>, first: seq<nat>, k: nat, i: nat) {
    i <= |labels| && |first| == k &&
    (forall j | 0 <= j < i :: labels[j] in comp) &&
    (forall s | 0 <= s < k :: first[s] < i && labels[first[s]] in comp && comp[labels[first[s]]] == s) &&
    (forall x | x in comp :: comp[x] < k && labels[first[comp[x]]] == x) &&
    (forall s, t | 0 <= s < t < k :: first[s] < first[t]) &&
    (forall j | 0 <= j < i :: first[comp[labels[j]]] <= j)
  }

  lemma FirstSeenStep(labels: seq<nat>, comp: map<nat, nat>, first: seq<nat>, k: nat, i: nat)
    requires FirstSeen(labels, comp, first, k, i) && i < |labels|
    ensures labels[i] in comp ==> FirstSeen(labels, comp, first, k, i + 1)
    ensures labels[i] !in comp ==> FirstSeen(labels, comp[labels[i] := k], first + [i], k + 1, i + 1)
  {
  }

  /** Dense numbering in order of first appearance (the source's `comp` and
      `remap` maps): equal labels get equal ids and only those, the ids are
      exactly 0..k-1, and id s first appears before id s+1. */
  method Relabel(labels: seq<nat>) returns (ids: seq<nat>, k: nat)
    ensures |ids| == |labels|
    ensures forall i | 0 <= i < |ids| :: ids[i] < k
    ensures forall a, b | 0 <= a < |ids| && 0 <= b < |ids| :: ids[a] == ids[b] <==> labels[a] == labels[b]
    ensures forall s | 0 <= s < k :: OccursBefore(ids, s, |ids|)
    ensures forall i, s | 0 <= i < |ids| && 0 <= s < ids[i] :: OccursBefore(ids, s, i)
  {
    var comp: map<nat, nat> := map[];
    k := 0;
    ghost var first: seq<nat> := [];
    var i := 0;
    while i < |labels|
      invariant FirstSeen(labels, comp, first, k, i)
    {
      FirstSeenStep(labels, comp, first, k, i);
      if labels[i] !in comp {
        comp := comp[labels[i] := k];
        first := first + [i];
        k := k + 1;
      }
      i := i + 1;
    }
    ids := [];
    i := 0;
    while i < |labels|
      invariant 0 <= i <= |labels| && |ids| == i
      invariant FirstSeen(labels, comp, first, k, |labels|)
      invariant forall j | 0 <= j < i :: ids[j] == comp[labels[j]]
    {
      ids := ids + [comp[labels[i]]];
      i := i + 1;
    }
    NumberingFacts(labels, comp, first, k, ids);
  }

  /** What the two passes of Relabel establish, given the state the first
      pass leaves: `first[s]` is the index where id s was handed out. */
  lemma NumberingFacts(labels: seq<nat>, comp: map<nat, nat>, first: seq<nat>, k: nat, ids: seq<nat>)
    requires FirstSeen(labels, comp, first, k, |labels|) && |ids| == |labels|
    requires forall j | 0 <= j < |labels| :: ids[j] == comp[labels[j]]
    ensures forall i | 0 <= i < |ids| :: ids[i] < k
    ensures forall a, b | 0 <= a < |ids| && 0 <= b < |ids| :: ids[a] == ids[b] <==> labels[a] == labels[b]
    ensures forall s | 0 <= s < k :: OccursBefore(ids, s, |ids|)
    ensures forall i, s | 0 <= i < |ids| && 0 <= s < ids[i] :: OccursBefore(ids, s, i)
  {
    forall s | 0 <= s < k
      ensures OccursBefore(ids, s, |ids|)
    {
      assert ids[first[s]] == s;
    }
    forall i, s | 0 <= i < |ids| && 0 <= s < ids[i]
      ensures OccursBefore(ids, s, i)
    {
      assert first[s] < first[ids[i]] <= i;
      assert ids[first[s]] == s;
    }
  }
}
