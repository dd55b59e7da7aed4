/** The spark-spread state machine of a murmuration. Every boid is idle, a
    root spark (lit by a random seed) or a linked spark (infected by another
    spark, its infector, to which a pulse line is drawn). Each frame the
    sparks first settle (linked sparks detach, root sparks expire); every
    eighth frame the sparks then spread, or one boid is seeded when there is
    no spark at all.

    The spark fields of the boids are kept in one array indexed like the
    boids; the block reads boid positions and writes only these fields. */
module SparkSpread {
  import opened Geometry

  /** Spreading happens on frames that are a multiple of this. */
  const SpreadEvery: nat := 8
  /** Infection radius, as a fraction of the container extent. */
  const SpreadRadius: real := 0.35
  /** Detach radius of a linked spark, as a fraction of the extent. */
  const DetachRatio: real := 0.65
  /** A spark infects no more boids once it has this many children. */
  const MaxChildren: nat := 4
  /** Chance of seeding a spark on a spreading frame without sparks. */
  const SeedChance: real := 0.15

  /** A frame deadline: not set (null or undefined), a frame number, or
      Infinity. */
  datatype Until = Unset | At(frame: int) | Never

  /** A duration in frames, possibly Infinity. */
  datatype Frames = Frames(count: int) | Forever

  /** The spark fields of one boid. */
  datatype Spark = Spark(isSpark: bool, infectedBy: Option<nat>, sparkUntil: Until, lineUntil: Option<int>)

  /** A boid as created: not a spark, no infector, no deadlines. */
  const Idle: Spark := Spark(false, None, Unset, None)

  /** The settings the block reads; None stands for an unset setting, which
      falls back to its default. */
  datatype Config = Config(sparkDuration: Option<real>, lineDuration: Option<real>, spreadRate: Option<real>)

  /** The random draws of one spreading frame: the seed coin, the seed pick
      (both in [0, 1)), and one spread coin per boid index, used when that
      boid is a spark that may infect. */
  datatype Draws = Draws(seedRoll: real, seedPick: real, rolls: seq<real>)

  function OrElse(o: Option<real>, d: real): real {
    if o.Some? then o.value else d
  }

  function Max(a: real, b: real): real {
    if a >= b then a else b
  }

  function Min(a: real, b: real): real {
    if a <= b then a else b
  }

  /** Math.round: the nearest integer, halves rounded up. */
  function Round(x: real): (r: int)
    ensures x - 0.5 < r as real <= x + 0.5
  {
    (x + 0.5).Floor
  }

  /** Spark duration in seconds, never negative (default 4). */
  function DurationSec(c: Config): (d: real)
    ensures d >= 0.0
    ensures d == 0.0 <==> OrElse(c.sparkDuration, 4.0) <= 0.0
  {
    Max(0.0, OrElse(c.sparkDuration, 4.0))
  }

  /** Spark duration in frames at 60 frames per second; Infinity for a
      duration of 0. */
  function DurationFrames(c: Config): (f: Frames)
    ensures f.Forever? <==> DurationSec(c) == 0.0
    ensures f.Frames? ==> f.count >= 0 && DurationSec(c) * 60.0 - 0.5 < f.count as real <= DurationSec(c) * 60.0 + 0.5
  {
    var d := DurationSec(c);
    if d > 0.0 then Frames(Round(d * 60.0)) else Forever
  }

  /** Pulse-line duration in frames: the setting (default 0.75 s) clamped
      to [0.25, 2] seconds, so between 15 and 120 frames. */
  function LineFrames(c: Config): (f: int)
    ensures 15 <= f <= 120
  {
    var sec := Max(0.25, Min(2.0, OrElse(c.lineDuration, 0.75)));
    Round(sec * 60.0)
  }

  /** Spread probability: the setting (default 0.4) clamped to [0.05, 1]. */
  function Rate(c: Config): (r: real)
    ensures 0.05 <= r <= 1.0
    ensures 0.05 <= OrElse(c.spreadRate, 0.4) <= 1.0 ==> r == OrElse(c.spreadRate, 0.4)
  {
    Max(0.05, Min(1.0, OrElse(c.spreadRate, 0.4)))
  }

  /** frameCount + durationFrames. */
  function Deadline(frame: int, d: Frames): Until {
    if d.Forever? then Never else At(frame + d.count)
  }

  /** frameCount >= until; Infinity (and an unset deadline) is never reached. */
  predicate Reached(frame: int, u: Until) {
    u.At? && frame >= u.frame
  }

  /** A linked spark's pulse line is over. */
  predicate LineOver(s: Spark, frame: int) {
    s.lineUntil.Some? && frame >= s.lineUntil.value
  }

  /** Squared detach distance (extent * 0.65)². */
  function DetachDist2(extent: real): real {
    (extent * DetachRatio) * (extent * DetachRatio)
  }

  /** Squared infection distance (extent * 0.35)² * 1.1. */
  function SpreadDist2(extent: real): real {
    (extent * SpreadRadius) * (extent * SpreadRadius) * 1.1
  }

  // ---------------------------------------------------------------------
  // Invariants of the spark fields

  /** Every infector is a boid index. */
  ghost predicate WellFormed(sp: seq<Spark>) {
    forall i | 0 <= i < |sp| && sp[i].infectedBy.Some? :: sp[i].infectedBy.value < |sp|
  }

  /** Idle boids have no infector. */
  ghost predicate Tidy(sp: seq<Spark>) {
    forall i | 0 <= i < |sp| && !sp[i].isSpark :: sp[i].infectedBy.None?
  }

  /** No spark has more than 4 children. */
  ghost predicate ChildrenBounded(sp: seq<Spark>) {
    forall si: nat :: ChildCount(sp, si) <= MaxChildren
  }

  ghost predicate Good(sp: seq<Spark>) {
    WellFormed(sp) && Tidy(sp) && ChildrenBounded(sp)
  }

  /** Boids as created (no spark, no infector) satisfy the invariants, so
      every state reached through SparkStep does. */
  lemma IdleGood(n: nat)
    ensures Good(seq(n, i => Idle))
  {
    var sp := seq(n, i => Idle);
    forall si: nat
      ensures ChildCount(sp, si) <= MaxChildren
    {
      assert ChildCount(sp, si) == 0;
    }
  }

  // ---------------------------------------------------------------------
  // Settling: detach and expiry, every frame

  /** One boid's turn in the settling loop: p is its position, pos the
      positions of all boids (for its infector's). */
  function Settle(s: Spark, p: Vec3, pos: seq<Vec3>, frame: int, c: Config, extent: real): (r: Spark)
    requires s.infectedBy.Some? ==> s.infectedBy.value < |pos|
    ensures !s.isSpark ==> r == s
    ensures s.isSpark && s.infectedBy.Some? ==>
              (r == s || r == Idle) &&
              (r.isSpark <==> !LineOver(s, frame) && Dist2(pos[s.infectedBy.value], p) <= DetachDist2(extent))
    ensures s.isSpark && s.infectedBy.None? ==>
              r.infectedBy.None? && r.lineUntil == s.lineUntil &&
              (DurationSec(c) == 0.0 ==> r.isSpark) &&
              (r.isSpark ==> r.sparkUntil != Unset) &&
              (!r.isSpark ==> r.sparkUntil == Unset) &&
              (s.sparkUntil.At? && DurationSec(c) > 0.0 ==> (r.isSpark <==> frame < s.sparkUntil.frame)) &&
              (s.sparkUntil == Never ==> r == s) &&
              (s.sparkUntil != Unset && r.isSpark ==> r == s) &&
              (s.sparkUntil == Unset && r.isSpark ==> r.sparkUntil == Deadline(frame, DurationFrames(c))) &&
              (s.sparkUntil == Unset && DurationSec(c) > 0.0 ==> (r.isSpark <==> DurationFrames(c).count > 0))
  {
    if !s.isSpark then s
    else if s.infectedBy.Some? then
      if LineOver(s, frame) then Idle
      else if Dist2(pos[s.infectedBy.value], p) > DetachDist2(extent) then Idle
      else s
    else
      var s1 := if s.sparkUntil.Unset? then s.(sparkUntil := Deadline(frame, DurationFrames(c))) else s;
      if DurationSec(c) > 0.0 && Reached(frame, s1.sparkUntil) then
        s1.(isSpark := false, infectedBy := None, sparkUntil := Unset)
      else s1
  }

  /** The settling loop over all boids. */
  function SettleAll(sp: seq<Spark>, pos: seq<Vec3>, frame: int, c: Config, extent: real): (r: seq<Spark>)
    requires |sp| == |pos| && WellFormed(sp)
    ensures |r| == |sp|
  {
    seq(|sp|, i requires 0 <= i < |sp| => Settle(sp[i], pos[i], pos, frame, c, extent))
  }

  /** Settling never makes a spark, and only ever clears infectors. */
  lemma SettleAllShrinks(sp: seq<Spark>, pos: seq<Vec3>, frame: int, c: Config, extent: real)
    requires |sp| == |pos| && WellFormed(sp)
    ensures forall i | 0 <= i < |sp| :: SettleAll(sp, pos, frame, c, extent)[i].isSpark ==> sp[i].isSpark
    ensures forall i | 0 <= i < |sp| ::
              SettleAll(sp, pos, frame, c, extent)[i].infectedBy == sp[i].infectedBy ||
              SettleAll(sp, pos, frame, c, extent)[i].infectedBy.None?
  {
  }

  /** Settling keeps the invariants. */
  lemma SettleAllGood(sp: seq<Spark>, pos: seq<Vec3>, frame: int, c: Config, extent: real)
    requires |sp| == |pos| && Good(sp)
    ensures Good(SettleAll(sp, pos, frame, c, extent))
  {
    var r := SettleAll(sp, pos, frame, c, extent);
    SettleAllShrinks(sp, pos, frame, c, extent);
    forall si: nat
      ensures ChildCount(r, si) <= MaxChildren
    {
      ChildCountShrinks(sp, r, si);
    }
  }

  /** The settling loop as the source writes it. */
  method Settling(sparks: array<Spark>, pos: seq<Vec3>, frame: int, c: Config, extent: real)
    requires sparks.Length == |pos| && WellFormed(sparks[..])
    modifies sparks
    ensures sparks[..] == SettleAll(old(sparks[..]), pos, frame, c, extent)
  {
    ghost var sp := sparks[..];
    var durationSec := DurationSec(c);
    var durationFrames := DurationFrames(c);
    var detach2 := DetachDist2(extent);
    for i := 0 to sparks.Length
      invariant forall j | 0 <= j < i :: sparks[j] == Settle(sp[j], pos[j], pos, frame, c, extent)
      invariant forall j | i <= j < sparks.Length :: sparks[j] == sp[j]
    {
      var b := sparks[i];
      if b.isSpark {
        if b.infectedBy.Some? {
          if b.lineUntil.Some? && frame >= b.lineUntil.value {
            sparks[i] := Idle;
          } else if Dist2(pos[b.infectedBy.value], pos[i]) > detach2 {
            sparks[i] := Idle;
          }
        } else {
          if b.sparkUntil.Unset? {
            b := b.(sparkUntil := Deadline(frame, durationFrames));
            sparks[i] := b;
          }
          if durationSec > 0.0 && Reached(frame, b.sparkUntil) {
            sparks[i] := b.(isSpark := false, infectedBy := None, sparkUntil := Unset);
          }
        }
      }
    }
  }

  // ---------------------------------------------------------------------
  // Counting sparks and children

  /** The indices of the sparks, in increasing order. */
  function SparkIndices(sp: seq<Spark>): (r: seq<nat>)
    ensures |r| <= |sp|
    ensures forall k | 0 <= k < |r| :: r[k] < |sp| && sp[r[k]].isSpark
    ensures forall i | 0 <= i < |sp| && sp[i].isSpark :: i in r
  {
    if |sp| == 0 then []
    else
      var n := |sp| - 1;
      SparkIndices(sp[..n]) + (if sp[n].isSpark then [n] else [])
  }

  /** The number of boids whose infector is si. */
  function ChildCount(sp: seq<Spark>, si: nat): (c: nat)
    ensures c <= |sp|
    ensures c > 0 <==> exists j | 0 <= j < |sp| :: sp[j].infectedBy == Some(si)
  {
    if |sp| == 0 then 0
    else
      var n := |sp| - 1;
      ChildCount(sp[..n], si) + (if sp[n].infectedBy == Some(si) then 1 else 0)
  }

  /** Changing one boid's fields changes a spark count by that boid alone. */
  lemma {:induction false} SparkIndicesUpdate(sp: seq<Spark>, j: nat, x: Spark)
    requires j < |sp|
    ensures |SparkIndices(sp[j := x])| ==
              |SparkIndices(sp)| - (if sp[j].isSpark then 1 else 0) + (if x.isSpark then 1 else 0)
    decreases |sp|
  {
    var n := |sp| - 1;
    var sp2 := sp[j := x];
    assert |SparkIndices(sp2)| == |SparkIndices(sp2[..n])| + (if sp2[n].isSpark then 1 else 0);
    assert |SparkIndices(sp)| == |SparkIndices(sp[..n])| + (if sp[n].isSpark then 1 else 0);
    if j == n {
      assert sp2[..n] == sp[..n];
    } else {
      assert sp2[..n] == sp[..n][j := x];
      SparkIndicesUpdate(sp[..n], j, x);
    }
  }

  /** Changing one boid's fields changes a child count by that boid alone. */
  lemma {:induction false} ChildCountUpdate(sp: seq<Spark>, j: nat, x: Spark, si: nat)
    requires j < |sp|
    ensures ChildCount(sp[j := x], si) ==
              ChildCount(sp, si) - (if sp[j].infectedBy == Some(si) then 1 else 0) + (if x.infectedBy == Some(si) then 1 else 0)
    decreases |sp|
  {
    var n := |sp| - 1;
    var sp2 := sp[j := x];
    assert ChildCount(sp2, si) == ChildCount(sp2[..n], si) + (if sp2[n].infectedBy == Some(si) then 1 else 0);
    assert ChildCount(sp, si) == ChildCount(sp[..n], si) + (if sp[n].infectedBy == Some(si) then 1 else 0);
    if j == n {
      assert sp2[..n] == sp[..n];
    } else {
      assert sp2[..n] == sp[..n][j := x];
      ChildCountUpdate(sp[..n], j, x, si);
    }
  }

  /** Clearing infectors never adds children. */
  lemma {:induction false} ChildCountShrinks(sp: seq<Spark>, sp2: seq<Spark>, si: nat)
    requires |sp2| == |sp|
    requires forall i | 0 <= i < |sp| :: sp2[i].infectedBy == sp[i].infectedBy || sp2[i].infectedBy.None?
    ensures ChildCount(sp2, si) <= ChildCount(sp, si)
    decreases |sp|
  {
    if |sp| > 0 {
      var n := |sp| - 1;
      ChildCountShrinks(sp[..n], sp2[..n], si);
    }
  }

  /** The sparkIndices loop. */
  method CollectSparks(sparks: array<Spark>) returns (idxs: seq<nat>)
    ensures idxs == SparkIndices(sparks[..])
  {
    idxs := [];
    for i := 0 to sparks.Length
      invariant idxs == SparkIndices(sparks[..i])
    {
      assert sparks[..i + 1][..i] == sparks[..i];
      if sparks[i].isSpark {
        idxs := idxs + [i];
      }
    }
    assert sparks[..sparks.Length] == sparks[..];
  }

  /** The childCount closure. */
  method CountChildren(sparks: array<Spark>, si: nat) returns (c: nat)
    ensures c == ChildCount(sparks[..], si)
  {
    c := 0;
    for j := 0 to sparks.Length
      invariant c == ChildCount(sparks[..j], si)
    {
      assert sparks[..j + 1][..j] == sparks[..j];
      if sparks[j].infectedBy == Some(si) {
        c := c + 1;
      }
    }
    assert sparks[..sparks.Length] == sparks[..];
  }

  // ---------------------------------------------------------------------
  // The nearest idle boid

  /** j may be infected by si: another boid that is not a spark. */
  ghost predicate Eligible(sp: seq<Spark>, si: nat, j: nat) {
    j < |sp| && j != si && !sp[j].isSpark
  }

  /** The outcome of the scan for si's victim: -1 when no eligible boid is
      nearer than bound; otherwise an eligible boid nearer than bound and
      nearest of all, the first of equally near ones (the comparison is
      strict). */
  ghost predicate IsNearestIdle(sp: seq<Spark>, pos: seq<Vec3>, si: nat, bound: real, r: int)
    requires |pos| == |sp| && si < |sp|
  {
    (r == -1 ==> forall j | 0 <= j < |sp| && Eligible(sp, si, j) :: Dist2(pos[si], pos[j]) >= bound) &&
    (r != -1 ==>
       0 <= r < |sp| && Eligible(sp, si, r) && Dist2(pos[si], pos[r]) < bound &&
       (forall j | 0 <= j < |sp| && Eligible(sp, si, j) :: Dist2(pos[si], pos[r]) <= Dist2(pos[si], pos[j])) &&
       (forall j | 0 <= j < r && Eligible(sp, si, j) :: Dist2(pos[si], pos[r]) < Dist2(pos[si], pos[j])))
  }

  /** The state of the scan after the boids below t. */
  ghost predicate ScanState(sp: seq<Spark>, pos: seq<Vec3>, si: nat, bound: real, t: nat, best: int, bestD: real)
    requires |pos| == |sp| && si < |sp|
  {
    t <= |sp| &&
    (best == -1 ==> bestD == bound) &&
    (best != -1 ==> 0 <= best < t && Eligible(sp, si, best) && bestD == Dist2(pos[si], pos[best]) && bestD < bound) &&
    (forall j | 0 <= j < t && Eligible(sp, si, j) :: bestD <= Dist2(pos[si], pos[j])) &&
    (forall j | 0 <= j < best && Eligible(sp, si, j) :: bestD < Dist2(pos[si], pos[j]))
  }

  /** One step of the scan keeps its state. */
  lemma ScanStep(sp: seq<Spark>, pos: seq<Vec3>, si: nat, bound: real, t: nat, best: int, bestD: real)
    requires |pos| == |sp| && si < |sp| && t < |sp| && ScanState(sp, pos, si, bound, t, best, bestD)
    ensures t == si || sp[t].isSpark ==> ScanState(sp, pos, si, bound, t + 1, best, bestD)
    ensures t != si && !sp[t].isSpark && Dist2(pos[si], pos[t]) < bestD ==>
              ScanState(sp, pos, si, bound, t + 1, t, Dist2(pos[si], pos[t]))
    ensures t != si && !sp[t].isSpark && Dist2(pos[si], pos[t]) >= bestD ==>
              ScanState(sp, pos, si, bound, t + 1, best, bestD)
  {
    if t != si && !sp[t].isSpark {
      var d := Dist2(pos[si], pos[t]);
      if d < bestD {
        forall j | 0 <= j < t + 1 && Eligible(sp, si, j)
          ensures d <= Dist2(pos[si], pos[j])
        {
        }
      }
    }
  }

  /** The scan from boid t on. */
  function ScanIdle(sp: seq<Spark>, pos: seq<Vec3>, si: nat, bound: real, t: nat, best: int, bestD: real): (r: int)
    requires |pos| == |sp| && si < |sp| && ScanState(sp, pos, si, bound, t, best, bestD)
    ensures IsNearestIdle(sp, pos, si, bound, r)
    decreases |sp| - t
  {
    if t == |sp| then best
    else
      ScanStep(sp, pos, si, bound, t, best, bestD);
      if t == si || sp[t].isSpark then ScanIdle(sp, pos, si, bound, t + 1, best, bestD)
      else
        var d := Dist2(pos[si], pos[t]);
        if d < bestD then ScanIdle(sp, pos, si, bound, t + 1, t, d)
        else ScanIdle(sp, pos, si, bound, t + 1, best, bestD)
  }

  /** The boid that spark si infects, or -1. */
  function NearestIdle(sp: seq<Spark>, pos: seq<Vec3>, si: nat, bound: real): (r: int)
    requires |pos| == |sp| && si < |sp|
    ensures IsNearestIdle(sp, pos, si, bound, r)
  {
    ScanIdle(sp, pos, si, bound, 0, -1, bound)
  }

  /** At most one boid is the nearest idle boid. */
  lemma NearestIdleUnique(sp: seq<Spark>, pos: seq<Vec3>, si: nat, bound: real, r1: int, r2: int)
    requires |pos| == |sp| && si < |sp|
    requires IsNearestIdle(sp, pos, si, bound, r1) && IsNearestIdle(sp, pos, si, bound, r2)
    ensures r1 == r2
  {
  }

  /** The scan loop for spark si's victim. */
  method NearestIdleBoid(sparks: array<Spark>, pos: seq<Vec3>, si: nat, bound: real) returns (bestJ: int)
    requires sparks.Length == |pos| && si < sparks.Length
    ensures bestJ == NearestIdle(sparks[..], pos, si, bound)
  {
    bestJ := -1;
    var bestD2 := bound;
    for j := 0 to sparks.Length
      invariant ScanState(sparks[..], pos, si, bound, j, bestJ, bestD2)
    {
      ScanStep(sparks[..], pos, si, bound, j, bestJ, bestD2);
      if j == si || sparks[j].isSpark {
        continue;
      }
      var d2 := Dist2(pos[si], pos[j]);
      if d2 < bestD2 {
        bestD2 := d2;
        bestJ := j;
      }
    }
    NearestIdleUnique(sparks[..], pos, si, bound, bestJ, NearestIdle(sparks[..], pos, si, bound));
  }

  // ---------------------------------------------------------------------
  // Spreading

  /** Spark si's turn: with fewer than 4 children and a spread coin at most
      rate, it infects the nearest idle boid within bound, which becomes a
      linked spark of si whose line lasts until frame + lineFrames. */
  function InfectOne(sp: seq<Spark>, pos: seq<Vec3>, si: nat, roll: real, rate: real, bound: real, frame: int, lineFrames: int)
    : (r: seq<Spark>)
    requires |pos| == |sp| && si < |sp|
    ensures |r| == |sp|
    ensures forall i | 0 <= i < |sp| && sp[i].isSpark :: r[i] == sp[i]
    ensures forall i | 0 <= i < |sp| && r[i] != sp[i] ::
              ChildCount(sp, si) < MaxChildren && roll <= rate &&
              i == NearestIdle(sp, pos, si, bound) && Dist2(pos[si], pos[i]) < bound &&
              r[i] == sp[i].(isSpark := true, infectedBy := Some(si), lineUntil := Some(frame + lineFrames))
    ensures ChildCount(sp, si) < MaxChildren && roll <= rate && NearestIdle(sp, pos, si, bound) >= 0 ==>
              var j := NearestIdle(sp, pos, si, bound);
              r == sp[j := sp[j].(isSpark := true, infectedBy := Some(si), lineUntil := Some(frame + lineFrames))]
    ensures ChildCount(sp, si) >= MaxChildren || roll > rate || NearestIdle(sp, pos, si, bound) < 0 ==> r == sp
  {
    if ChildCount(sp, si) >= MaxChildren || roll > rate then sp
    else
      var j := NearestIdle(sp, pos, si, bound);
      if j < 0 then sp
      else sp[j := sp[j].(isSpark := true, infectedBy := Some(si), lineUntil := Some(frame + lineFrames))]
  }

  /** An infection keeps the invariants and adds at most one spark. */
  lemma InfectOneGood(sp: seq<Spark>, pos: seq<Vec3>, si: nat, roll: real, rate: real, bound: real, frame: int, lineFrames: int)
    requires |pos| == |sp| && si < |sp| && Good(sp)
    ensures Good(InfectOne(sp, pos, si, roll, rate, bound, frame, lineFrames))
    ensures |SparkIndices(InfectOne(sp, pos, si, roll, rate, bound, frame, lineFrames))| <= |SparkIndices(sp)| + 1
  {
    var r := InfectOne(sp, pos, si, roll, rate, bound, frame, lineFrames);
    if r != sp {
      var j := NearestIdle(sp, pos, si, bound);
      var x := r[j];
      assert r == sp[j := x];
      assert sp[j].infectedBy.None?;
      SparkIndicesUpdate(sp, j, x);
      forall t: nat
        ensures ChildCount(r, t) <= MaxChildren
      {
        ChildCountUpdate(sp, j, x, t);
      }
    }
  }

  /** The spreading loop over the sparks listed at its start, in order. */
  function InfectAll(sp: seq<Spark>, pos: seq<Vec3>, idxs: seq<nat>, rolls: seq<real>, rate: real, bound: real, frame: int, lineFrames: int)
    : (r: seq<Spark>)
    requires |pos| == |sp| == |rolls| && forall k | 0 <= k < |idxs| :: idxs[k] < |sp|
    ensures |r| == |sp|
    decreases |idxs|
  {
    if idxs == [] then sp
    else
      var si := idxs[0];
      InfectAll(InfectOne(sp, pos, si, rolls[si], rate, bound, frame, lineFrames), pos, idxs[1..], rolls, rate, bound, frame, lineFrames)
  }

  /** The spreading loop keeps the invariants, keeps every spark as it is,
      and adds at most one spark per listed spark. */
  lemma {:induction false} InfectAllGood(sp: seq<Spark>, pos: seq<Vec3>, idxs: seq<nat>, rolls: seq<real>, rate: real, bound: real, frame: int, lineFrames: int)
    requires |pos| == |sp| == |rolls| && forall k | 0 <= k < |idxs| :: idxs[k] < |sp|
    requires Good(sp)
    ensures Good(InfectAll(sp, pos, idxs, rolls, rate, bound, frame, lineFrames))
    ensures |SparkIndices(InfectAll(sp, pos, idxs, rolls, rate, bound, frame, lineFrames))| <= |SparkIndices(sp)| + |idxs|
    ensures forall i | 0 <= i < |sp| && sp[i].isSpark :: InfectAll(sp, pos, idxs, rolls, rate, bound, frame, lineFrames)[i] == sp[i]
    decreases |idxs|
  {
    if idxs != [] {
      var si := idxs[0];
      var next := InfectOne(sp, pos, si, rolls[si], rate, bound, frame, lineFrames);
      InfectOneGood(sp, pos, si, rolls[si], rate, bound, frame, lineFrames);
      InfectAllGood(next, pos, idxs[1..], rolls, rate, bound, frame, lineFrames);
    }
  }

  /** floor(pick * n), a boid index for a pick in [0, 1). */
  function SeedIndex(n: nat, pick: real): (idx: nat)
    requires n > 0 && 0.0 <= pick < 1.0
    ensures idx < n
  {
    assert pick * n as real < n as real;
    (pick * n as real).Floor
  }

  /** Seeding: the boid at floor(pick * n) becomes a root spark with a
      fresh spark deadline; its line deadline is left as it was. */
  function Seed(sp: seq<Spark>, frame: int, c: Config, pick: real): (r: seq<Spark>)
    requires |sp| > 0 && 0.0 <= pick < 1.0
    ensures |r| == |sp|
  {
    var idx := SeedIndex(|sp|, pick);
    sp[idx := sp[idx].(isSpark := true, infectedBy := None, sparkUntil := Deadline(frame, DurationFrames(c)))]
  }

  /** Seeding into a murmuration without sparks leaves exactly one spark, a
      root spark, and keeps the invariants. */
  lemma SeedOneRoot(sp: seq<Spark>, frame: int, c: Config, pick: real)
    requires |sp| > 0 && 0.0 <= pick < 1.0 && Good(sp) && SparkIndices(sp) == []
    ensures |SparkIndices(Seed(sp, frame, c, pick))| == 1
    ensures forall i | 0 <= i < |sp| && Seed(sp, frame, c, pick)[i].isSpark :: Seed(sp, frame, c, pick)[i].infectedBy.None?
    ensures Good(Seed(sp, frame, c, pick))
  {
    var r := Seed(sp, frame, c, pick);
    var idx := SeedIndex(|sp|, pick);
    SparkIndicesUpdate(sp, idx, r[idx]);
    forall t: nat
      ensures ChildCount(r, t) <= MaxChildren
    {
      ChildCountUpdate(sp, idx, r[idx], t);
    }
  }

  /** The spreading block: only on every eighth frame; with no sparks, a
      seed when the seed coin is below 0.15; otherwise the spreading loop
      over the sparks present at its start. */
  function SpreadStep(sp: seq<Spark>, pos: seq<Vec3>, frame: nat, c: Config, extent: real, d: Draws): (r: seq<Spark>)
    requires |pos| == |sp| == |d.rolls| && |sp| > 0 && 0.0 <= d.seedPick < 1.0
    ensures |r| == |sp|
    ensures frame % SpreadEvery != 0 ==> r == sp
    ensures SparkIndices(sp) == [] && d.seedRoll >= SeedChance ==> r == sp
  {
    if frame % SpreadEvery != 0 then sp
    else
      var idxs := SparkIndices(sp);
      if |idxs| == 0 && d.seedRoll < SeedChance then Seed(sp, frame, c, d.seedPick)
      else if |idxs| > 0 then InfectAll(sp, pos, idxs, d.rolls, Rate(c), SpreadDist2(extent), frame, LineFrames(c))
      else sp
  }

  /** A spreading frame keeps the invariants, never puts out a spark, and
      at most doubles the number of sparks (at least one when it seeds). */
  lemma SpreadStepGood(sp: seq<Spark>, pos: seq<Vec3>, frame: nat, c: Config, extent: real, d: Draws)
    requires |pos| == |sp| == |d.rolls| && |sp| > 0 && 0.0 <= d.seedPick < 1.0 && Good(sp)
    ensures Good(SpreadStep(sp, pos, frame, c, extent, d))
    ensures forall i | 0 <= i < |sp| && sp[i].isSpark :: SpreadStep(sp, pos, frame, c, extent, d)[i] == sp[i]
    ensures |SparkIndices(SpreadStep(sp, pos, frame, c, extent, d))| <= 2 * |SparkIndices(sp)| + 1
  {
    if frame % SpreadEvery == 0 {
      var idxs := SparkIndices(sp);
      if |idxs| == 0 && d.seedRoll < SeedChance {
        SeedOneRoot(sp, frame, c, d.seedPick);
      } else if |idxs| > 0 {
        InfectAllGood(sp, pos, idxs, d.rolls, Rate(c), SpreadDist2(extent), frame, LineFrames(c));
      }
    }
  }

  /** Spark si's turn of the spreading loop. */
  method InfectTurn(sparks: array<Spark>, pos: seq<Vec3>, si: nat, roll: real, rate: real, bound: real, frame: int, lineFrames: int)
    requires sparks.Length == |pos| && si < sparks.Length
    modifies sparks
    ensures sparks[..] == InfectOne(old(sparks[..]), pos, si, roll, rate, bound, frame, lineFrames)
  {
    var children := CountChildren(sparks, si);
    if children >= MaxChildren || roll > rate {
      return;
    }
    var bestJ := NearestIdleBoid(sparks, pos, si, bound);
    if bestJ >= 0 {
      sparks[bestJ] := sparks[bestJ].(isSpark := true, infectedBy := Some(si), lineUntil := Some(frame + lineFrames));
    }
  }

  /** The spreading block as the source writes it. */
  method Spread(sparks: array<Spark>, pos: seq<Vec3>, frame: nat, c: Config, extent: real, d: Draws)
    requires sparks.Length == |pos| == |d.rolls| && sparks.Length > 0 && 0.0 <= d.seedPick < 1.0
    modifies sparks
    ensures sparks[..] == SpreadStep(old(sparks[..]), pos, frame, c, extent, d)
  {
    if frame % SpreadEvery != 0 {
      return;
    }
    var idxs := CollectSparks(sparks);
    if |idxs| == 0 && d.seedRoll < SeedChance {
      var idx := SeedIndex(sparks.Length, d.seedPick);
      sparks[idx] := sparks[idx].(isSpark := true, infectedBy := None, sparkUntil := Deadline(frame, DurationFrames(c)));
    } else if |idxs| > 0 {
      InfectLoop(sparks, pos, idxs, d.rolls, Rate(c), SpreadDist2(extent), frame, LineFrames(c));
    }
  }

  /** The loop over the sparks listed at the start of the spreading block. */
  method InfectLoop(sparks: array<Spark>, pos: seq<Vec3>, idxs: seq<nat>, rolls: seq<real>, rate: real, bound: real, frame: int, lineFrames: int)
    requires sparks.Length == |pos| == |rolls| && forall k | 0 <= k < |idxs| :: idxs[k] < sparks.Length
    modifies sparks
    ensures sparks[..] == InfectAll(old(sparks[..]), pos, idxs, rolls, rate, bound, frame, lineFrames)
  {
    ghost var sp := sparks[..];
    for k := 0 to |idxs|
      invariant InfectAll(sparks[..], pos, idxs[k..], rolls, rate, bound, frame, lineFrames) ==
                InfectAll(sp, pos, idxs, rolls, rate, bound, frame, lineFrames)
    {
      var si := idxs[k];
      assert idxs[k..][1..] == idxs[k + 1..];
      InfectTurn(sparks, pos, si, rolls[si], rate, bound, frame, lineFrames);
    }
    assert idxs[|idxs|..] == [];
  }

  /** The whole spark block of a boid step: nothing without boids or with
      spreading switched off; otherwise settling, then spreading. */
  method SparkStep(sparks: array<Spark>, pos: seq<Vec3>, frame: nat, spread: bool, c: Config, extent: real, d: Draws)
    requires sparks.Length == |pos| == |d.rolls| && 0.0 <= d.seedPick < 1.0 && Good(sparks[..])
    modifies sparks
    ensures sparks.Length == 0 || !spread ==> sparks[..] == old(sparks[..])
    ensures sparks.Length > 0 && spread ==>
              sparks[..] == SpreadStep(SettleAll(old(sparks[..]), pos, frame, c, extent), pos, frame, c, extent, d)
    ensures Good(sparks[..])
  {
    if sparks.Length == 0 || !spread {
      return;
    }
    Settling(sparks, pos, frame, c, extent);
    SettleAllGood(old(sparks[..]), pos, frame, c, extent);
    Spread(sparks, pos, frame, c, extent, d);
    SpreadStepGood(SettleAll(old(sparks[..]), pos, frame, c, extent), pos, frame, c, extent, d);
  }
}
