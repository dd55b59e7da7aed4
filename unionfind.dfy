/** The union-find structure the swarm partitioner uses twice (over boids,
    then over swarm centroids): a parent array, a recursive find that
    compresses the path it walks, and a union that hangs the root of the
    first element under the root of the second. */
module DisjointSets {

  /** p is a forest: every parent pointer stays in range and climbs to a
      strictly higher rank, ranks being bounded by m. The ranks are proof
      bookkeeping only; they make "follow parents to the root" terminate. */
  ghost predicate IsForest(p: seq<nat>, rk: seq<nat>, m: nat) {
    |rk| == |p| &&
    forall i | 0 <= i < |p| :: p[i] < |p| && rk[i] <= m && (p[i] != i ==> rk[i] < rk[p[i]])
  }

  /** The root reached from i by following parent pointers. */
  ghost function RootOf(p: seq<nat>, rk: seq<nat>, m: nat, i: nat): (r: nat)
    requires IsForest(p, rk, m) && i < |p|
    ensures r < |p| && p[r] == r
    ensures rk[i] <= rk[r] && (p[i] != i ==> rk[i] < rk[r])
    decreases m - rk[i]
  {
    if p[i] == i then i else RootOf(p, rk, m, p[i])
  }

  /** The root of every element: the partition the forest stands for. */
  ghost function Roots(p: seq<nat>, rk: seq<nat>, m: nat): (r: seq<nat>)
    requires IsForest(p, rk, m)
    ensures |r| == |p|
  {
    seq(|p|, k requires 0 <= k < |p| => RootOf(p, rk, m, k))
  }

  /** Labels after merging the class of a into the class of b: every element
      labelled like a takes b's label. */
  function Join(labels: seq<nat>, a: nat, b: nat): (r: seq<nat>)
    requires a < |labels| && b < |labels|
    ensures |r| == |labels|
    ensures forall k | 0 <= k < |labels| :: r[k] == if labels[k] == labels[a] then labels[b] else labels[k]
  {
    seq(|labels|, k requires 0 <= k < |labels| => if labels[k] == labels[a] then labels[b] else labels[k])
  }

  lemma {:induction false} CompressRootOf(p: seq<nat>, rk: seq<nat>, m: nat, i: nat, k: nat)
    requires IsForest(p, rk, m) && i < |p| && k < |p|
    requires IsForest(p[i := RootOf(p, rk, m, i)], rk, m)
    ensures RootOf(p[i := RootOf(p, rk, m, i)], rk, m, k) == RootOf(p, rk, m, k)
    decreases m - rk[k]
  {
    var q := p[i := RootOf(p, rk, m, i)];
    if k != i && p[k] != k {
      CompressRootOf(p, rk, m, i, p[k]);
    }
  }

  /** Pointing i straight at its root keeps a forest and changes no root. */
  lemma CompressKeepsRoots(p: seq<nat>, rk: seq<nat>, m: nat, i: nat)
    requires IsForest(p, rk, m) && i < |p|
    ensures IsForest(p[i := RootOf(p, rk, m, i)], rk, m)
    ensures Roots(p[i := RootOf(p, rk, m, i)], rk, m) == Roots(p, rk, m)
  {
    var q := p[i := RootOf(p, rk, m, i)];
    assert IsForest(q, rk, m);
    forall k | 0 <= k < |p|
      ensures RootOf(q, rk, m, k) == RootOf(p, rk, m, k)
    {
      CompressRootOf(p, rk, m, i, k);
    }
  }

  lemma {:induction false} LinkRootOf(p: seq<nat>, rk: seq<nat>, m: nat, ra: nat, rb: nat,
                                      q: seq<nat>, rk2: seq<nat>, m2: nat, k: nat)
    requires IsForest(p, rk, m) && ra < |p| && rb < |p| && p[ra] == ra && p[rb] == rb && ra != rb
    requires q == p[ra := rb] && IsForest(q, rk2, m2) && k < |p|
    ensures RootOf(q, rk2, m2, k) == if RootOf(p, rk, m, k) == ra then rb else RootOf(p, rk, m, k)
    decreases m - rk[k]
  {
    if k != ra && p[k] != k {
      LinkRootOf(p, rk, m, ra, rb, q, rk2, m2, p[k]);
    }
  }

  /** Hanging root ra under root rb (raising rb's rank above ra's) keeps a
      forest and merges exactly the two classes. */
  lemma LinkRoots(p: seq<nat>, rk: seq<nat>, m: nat, ra: nat, rb: nat)
    requires IsForest(p, rk, m) && ra < |p| && rb < |p| && p[ra] == ra && p[rb] == rb && ra != rb
    ensures var rk2 := rk[rb := if rk[rb] > rk[ra] then rk[rb] else rk[ra] + 1];
            var m2 := if m > rk[ra] then m else rk[ra] + 1;
            IsForest(p[ra := rb], rk2, m2) &&
            Roots(p[ra := rb], rk2, m2) == Join(Roots(p, rk, m), ra, rb)
  {
    var rk2 := rk[rb := if rk[rb] > rk[ra] then rk[rb] else rk[ra] + 1];
    var m2 := if m > rk[ra] then m else rk[ra] + 1;
    var q := p[ra := rb];
    assert IsForest(q, rk2, m2);
    var R := Roots(p, rk, m);
    forall k | 0 <= k < |p|
      ensures RootOf(q, rk2, m2, k) == Join(R, ra, rb)[k]
    {
      LinkRootOf(p, rk, m, ra, rb, q, rk2, m2, k);
    }
  }

  /** The labels of a forest are roots, so joining at the roots of a and b
      is joining at a and b; joining two elements of one class changes
      nothing. */
  lemma JoinAtRoots(p: seq<nat>, rk: seq<nat>, m: nat, a: nat, b: nat)
    requires IsForest(p, rk, m) && a < |p| && b < |p|
    ensures var R := Roots(p, rk, m);
      p[R[a]] == R[a] && p[R[b]] == R[b] &&
      Join(R, R[a], R[b]) == Join(R, a, b) &&
      (R[a] == R[b] ==> Join(R, a, b) == R)
  {
    var R := Roots(p, rk, m);
    assert R[R[a]] == R[a] && R[R[b]] == R[b];
  }

  /** Ranks under which hanging the root of a under the root of b keeps a
      forest whose labels are the join of the classes of a and b. */
  lemma LinkRanks(p: seq<nat>, rk: seq<nat>, m: nat, a: nat, b: nat) returns (rk2: seq<nat>, m2: nat)
    requires IsForest(p, rk, m) && a < |p| && b < |p|
    ensures var R := Roots(p, rk, m);
      IsForest(p[R[a] := R[b]], rk2, m2) &&
      Roots(p[R[a] := R[b]], rk2, m2) == Join(R, a, b)
  {
    var R := Roots(p, rk, m);
    var ra, rb := R[a], R[b];
    JoinAtRoots(p, rk, m, a, b);
    if ra != rb {
      LinkRoots(p, rk, m, ra, rb);
      rk2 := rk[rb := if rk[rb] > rk[ra] then rk[rb] else rk[ra] + 1];
      m2 := if m > rk[ra] then m else rk[ra] + 1;
    } else {
      assert p[ra := rb] == p;
      rk2, m2 := rk, m;
    }
  }

  class UnionFind {
    var parent: array<nat>
    ghost var rank: seq<nat>
    ghost var bound: nat

    ghost predicate Valid()
      reads this, parent
    {
      IsForest(parent[..], rank, bound)
    }

    /** The abstract state: the root label of every element. */
    ghost function Labels(): (r: seq<nat>)
      reads this, parent
      requires Valid()
      ensures |r| == parent.Length
    {
      Roots(parent[..], rank, bound)
    }

    /** n singletons: parent[i] = i. */
    constructor (n: nat)
      ensures Valid() && fresh(parent) && parent.Length == n
      ensures Labels() == seq(n, i => i)
    {
      parent := new nat[n](i => i);
      rank := seq(n, i => 0);
      bound := 0;
    }

    /** The root of i; every node on the way is re-pointed at the root.
        No element changes class. */
    method Find(i: nat) returns (r: nat)
      requires Valid() && i < parent.Length
      modifies parent
      ensures Valid() && Labels() == old(Labels())
      ensures r == Labels()[i]
      decreases bound - rank[i]
    {
      if parent[i] != i {
        ghost var p0 := parent[..];
        var t := Find(parent[i]);
        ghost var p := parent[..];
        assert t == Roots(p0, rank, bound)[p0[i]] == Roots(p0, rank, bound)[i];
        assert t == RootOf(p, rank, bound, i);
        CompressKeepsRoots(p, rank, bound, i);
        parent[i] := t;
        assert parent[..] == p[i := t];
      }
      r := parent[i];
    }

    /** parent[find(a)] = find(b): the class of a joins the class of b. */
    method Union(a: nat, b: nat)
      requires Valid() && a < parent.Length && b < parent.Length
      modifies this, parent
      ensures Valid() && parent == old(parent)
      ensures Labels() == Join(old(Labels()), a, b)
    {
      var ra := Find(a);
      var rb := Find(b);
      ghost var p := parent[..];
      assert Roots(p, rank, bound) == old(Labels());
      ghost var rk2, m2 := LinkRanks(p, rank, bound, a, b);
      rank, bound := rk2, m2;
      parent[ra] := rb;
      assert parent[..] == p[ra := rb];
    }
  }
}
