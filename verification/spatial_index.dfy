/** A brute-force specification of the KD-tree the descriptor queries:
    construction with the periodic fallback, the ball query and the rank query. */
module SpatialIndex {
  import opened Geometry

  /** An index: the indexed points and the distance mode fixed when it was built. */
  datatype Tree = Tree(points: seq<Point>, mode: Mode)

  /** A rank-query answer's distance: finite, or missing (infinite) past the last point. */
  datatype Dist = Finite(value: real) | Missing

  /** One rank-query answer: the distance and the index of the point at that rank.
      A missing rank reports the number of indexed points as its index. */
  datatype Neighbor = Neighbor(d: Dist, id: nat)

  /** Builds an index over `points`: periodic in `box` when the box accepts the points,
      otherwise the non-periodic fallback. Construction itself never fails. */
  function Build(points: seq<Point>, box: Box): (t: Tree)
    ensures t.points == points
    ensures t.mode == Periodic(box) || t.mode == Aperiodic
  {
    if FitsBox(points, box) then Tree(points, Periodic(box)) else Tree(points, Aperiodic)
  }

  /** Acceptance is decided point by point: the index over all points is periodic exactly
      when an index over each single point on its own would be. */
  lemma BuildPeriodicPointwise(points: seq<Point>, box: Box)
    ensures Build(points, box).mode.Periodic? <==>
      forall i :: 0 <= i < |points| ==> Build([points[i]], box).mode.Periodic?
  {
    forall i | 0 <= i < |points|
      ensures Build([points[i]], box).mode.Periodic? <==> InBox(points[i], box)
    {
      assert [points[i]][0] == points[i];
    }
  }

  /** The library's rejection test on one axis: the axis is periodic (length > 0) and the
      coordinate is negative or reaches the length. */
  predicate AxisRejects(c: real, len: real) {
    0.0 < len && (c < 0.0 || len <= c)
  }

  predicate Rejects(p: Point, b: Box) {
    AxisRejects(p.x, b.lx) || AxisRejects(p.y, b.ly) || AxisRejects(p.z, b.lz)
  }

  /** The index falls back to the non-periodic one exactly when some point fails one of the
      library's rejection tests on some axis. */
  lemma BuildFallbackIff(points: seq<Point>, box: Box)
    ensures Build(points, box).mode.Aperiodic? <==>
      exists i :: 0 <= i < |points| && Rejects(points[i], box)
  {
    if Build(points, box).mode.Aperiodic? {
      var i :| 0 <= i < |points| && !InBox(points[i], box);
      assert Rejects(points[i], box);
    }
  }

  /** An index over a selection of the points of a periodic index is periodic in the same box.
      (The converse fails: a selection can fit a box the whole set does not.) */
  lemma SelectionKeepsPeriodic(points: seq<Point>, ids: seq<nat>, box: Box)
    requires IndicesBelow(ids, |points|)
    requires Build(points, box).mode == Periodic(box)
    ensures Build(Gather(points, ids), box).mode == Periodic(box)
  {
    GatherFitsBox(points, ids, box);
  }

  // ---------------------------------------------------------------- ball query

  function BallFrom(t: Tree, dist: Metric, q: Point, r: real, lo: nat): (ids: seq<nat>)
    requires lo <= |t.points|
    ensures Increasing(ids)
    ensures forall k :: 0 <= k < |ids| ==> lo <= ids[k] < |t.points|
    ensures forall i: nat :: lo <= i < |t.points| ==> (i in ids <==> dist(t.mode, q, t.points[i]) <= r)
    decreases |t.points| - lo
  {
    if lo == |t.points| then []
    else if dist(t.mode, q, t.points[lo]) <= r then [lo] + BallFrom(t, dist, q, r, lo + 1)
    else BallFrom(t, dist, q, r, lo + 1)
  }

  /** The indices of all indexed points within distance `r` of `q`, boundary included,
      each once and in ascending order. */
  function Ball(t: Tree, dist: Metric, q: Point, r: real): (ids: seq<nat>)
    ensures Increasing(ids)
    ensures IndicesBelow(ids, |t.points|)
    ensures forall i: nat :: i < |t.points| ==> (i in ids <==> dist(t.mode, q, t.points[i]) <= r)
  {
    BallFrom(t, dist, q, r, 0)
  }

  // ---------------------------------------------------------------- stable order

  /** The distances from `q` to every indexed point, by index. */
  function Distances(t: Tree, dist: Metric, q: Point): (ds: seq<real>)
    ensures |ds| == |t.points|
    ensures forall i :: 0 <= i < |t.points| ==> ds[i] == dist(t.mode, q, t.points[i])
  {
    seq(|t.points|, i requires 0 <= i < |t.points| => dist(t.mode, q, t.points[i]))
  }

  /** Point `i` comes before point `j` in the stable order: nearer, or equally near with a lower index. */
  predicate Precedes(ds: seq<real>, i: nat, j: nat) {
    i < |ds| && j < |ds| && (ds[i] < ds[j] || (ds[i] == ds[j] && i < j))
  }

  predicate SortedBy(ds: seq<real>, s: seq<nat>) {
    forall a, b :: 0 <= a < b < |s| ==> Precedes(ds, s[a], s[b])
  }

  lemma SortedCons(ds: seq<real>, x: nat, s: seq<nat>)
    requires SortedBy(ds, s)
    requires forall y :: y in s ==> Precedes(ds, x, y)
    ensures SortedBy(ds, [x] + s)
  {
    var r := [x] + s;
    forall a, b | 0 <= a < b < |r| ensures Precedes(ds, r[a], r[b]) {
      if a == 0 {
        assert r[b] == s[b - 1];
        assert s[b - 1] in s;
      } else {
        assert r[a] == s[a - 1] && r[b] == s[b - 1];
      }
    }
  }

  /** Inserts index `j` into a stably sorted list of indices. */
  function Insert(ds: seq<real>, j: nat, s: seq<nat>): (r: seq<nat>)
    requires j < |ds| && IndicesBelow(s, |ds|) && SortedBy(ds, s) && j !in s
    ensures |r| == |s| + 1
    ensures IndicesBelow(r, |ds|)
    ensures forall x :: x in r <==> x in s || x == j
    ensures SortedBy(ds, r)
    decreases |s|
  {
    if |s| == 0 then
      [j]
    else if Precedes(ds, j, s[0]) then
      assert forall y :: y in s ==> Precedes(ds, j, y) by {
        forall y | y in s ensures Precedes(ds, j, y) {
          var b :| 0 <= b < |s| && s[b] == y;
          if b > 0 { assert Precedes(ds, s[0], s[b]); }
        }
      }
      SortedCons(ds, j, s);
      [j] + s
    else
      var rest := Insert(ds, j, s[1..]);
      assert forall y :: y in rest ==> Precedes(ds, s[0], y) by {
        forall y | y in rest ensures Precedes(ds, s[0], y) {
          if y != j {
            assert y in s[1..];
            var b :| 0 <= b < |s[1..]| && s[1..][b] == y;
            assert Precedes(ds, s[0], s[b + 1]);
          }
        }
      }
      SortedCons(ds, s[0], rest);
      [s[0]] + rest
  }

  /** The indices 0 .. m-1 in stable order. */
  function SortPrefix(ds: seq<real>, m: nat): (o: seq<nat>)
    requires m <= |ds|
    ensures |o| == m
    ensures IndicesBelow(o, |ds|)
    ensures forall x: nat :: x in o <==> x < m
    ensures SortedBy(ds, o)
  {
    if m == 0 then [] else Insert(ds, m - 1, SortPrefix(ds, m - 1))
  }

  /** All indices, sorted by distance with ties broken by the lower index. */
  function Order(ds: seq<real>): (o: seq<nat>)
    ensures |o| == |ds|
    ensures IndicesBelow(o, |ds|)
    ensures forall x: nat :: x in o <==> x < |ds|
    ensures SortedBy(ds, o)
  {
    SortPrefix(ds, |ds|)
  }

  // ---------------------------------------------------------------- ranks

  /** The indices that come before `j` in the stable order. */
  function Predecessors(ds: seq<real>, j: nat): set<nat> {
    set i: nat | i < |ds| && Precedes(ds, i, j)
  }

  /** Reference definition of a rank: one plus the number of points that come before. */
  function Rank(ds: seq<real>, j: nat): nat {
    1 + |Predecessors(ds, j)|
  }

  /** The set of entries of a list. */
  function Elements(s: seq<nat>): set<nat> {
    set x | x in s
  }

  lemma {:induction false} DistinctCard(s: seq<nat>)
    requires forall a, b :: 0 <= a < b < |s| ==> s[a] != s[b]
    ensures |Elements(s)| == |s|
  {
    if |s| > 0 {
      var tail := s[1..];
      DistinctCard(tail);
      assert Elements(s) == {s[0]} + Elements(tail);
      assert s[0] !in Elements(tail);
    }
  }

  /** In a stably sorted list, an element precedes another only if it is listed earlier. */
  lemma SortedPosition(ds: seq<real>, s: seq<nat>, p: nat, k: nat)
    requires SortedBy(ds, s)
    requires p < |s| && k < |s|
    ensures Precedes(ds, s[p], s[k]) ==> p < k
  {
    if k < p {
      assert Precedes(ds, s[k], s[p]);
    }
  }

  /** The point at position `k` of the stable order has rank `k + 1`. */
  lemma RankAtPosition(ds: seq<real>, k: nat)
    requires k < |ds|
    ensures Rank(ds, Order(ds)[k]) == k + 1
  {
    var o := Order(ds);
    var before := o[..k];
    forall i | i in Predecessors(ds, o[k]) ensures i in before {
      assert i in o;
      var p :| 0 <= p < |o| && o[p] == i;
      SortedPosition(ds, o, p, k);
      assert before[p] == i;
    }
    forall i | i in before ensures i in Predecessors(ds, o[k]) {
      var p :| 0 <= p < k && before[p] == i;
      assert Precedes(ds, o[p], o[k]);
    }
    assert Predecessors(ds, o[k]) == Elements(before);
    forall a, b | 0 <= a < b < |before| ensures before[a] != before[b] {
      assert Precedes(ds, o[a], o[b]);
    }
    DistinctCard(before);
  }

  /** Distinct points have distinct ranks. */
  lemma RankInjective(ds: seq<real>, i: nat, j: nat)
    requires i < |ds| && j < |ds|
    requires Rank(ds, i) == Rank(ds, j)
    ensures i == j
  {
    var o := Order(ds);
    assert i in o && j in o;
    var p :| 0 <= p < |o| && o[p] == i;
    var q :| 0 <= q < |o| && o[q] == j;
    RankAtPosition(ds, p);
    RankAtPosition(ds, q);
  }

  /** The rank-`k` query: the point at 1-based rank `k` from `q`, or the missing
      answer (infinite distance, index = number of points) when `k` exceeds the point count. */
  function QueryRank(t: Tree, dist: Metric, q: Point, k: int): (nb: Neighbor)
    requires k >= 1
    ensures k <= |t.points| ==> nb.id < |t.points| && nb.d == Finite(dist(t.mode, q, t.points[nb.id]))
    ensures k > |t.points| ==> nb == Neighbor(Missing, |t.points|)
  {
    var ds := Distances(t, dist, q);
    if k <= |ds| then
      var o := Order(ds);
      Neighbor(Finite(ds[o[k - 1]]), o[k - 1])
    else
      Neighbor(Missing, |ds|)
  }

  /** A found rank-`k` answer is the point whose reference rank is `k`. */
  lemma QueryRankHasRank(t: Tree, dist: Metric, q: Point, k: int)
    requires 1 <= k <= |t.points|
    ensures Rank(Distances(t, dist, q), QueryRank(t, dist, q, k).id) == k
  {
    RankAtPosition(Distances(t, dist, q), k - 1);
  }

  /** The rank query is deterministic: it returns the one point holding that rank. */
  lemma QueryRankUnique(t: Tree, dist: Metric, q: Point, j: nat)
    requires j < |t.points|
    ensures QueryRank(t, dist, q, Rank(Distances(t, dist, q), j)).id == j
  {
    var ds := Distances(t, dist, q);
    var k := Rank(ds, j);
    var o := Order(ds);
    assert j in o;
    var p :| 0 <= p < |o| && o[p] == j;
    RankAtPosition(ds, p);
    QueryRankHasRank(t, dist, q, k);
    RankInjective(ds, QueryRank(t, dist, q, k).id, j);
  }

  /** Querying from an indexed point: rank 1 is the point itself, at distance 0. */
  lemma SelfIsRankOne(t: Tree, dist: Metric, c: nat)
    requires IsMetric(dist)
    requires Separated(dist, t.mode, t.points)
    requires c < |t.points|
    ensures Rank(Distances(t, dist, t.points[c]), c) == 1
    ensures QueryRank(t, dist, t.points[c], 1) == Neighbor(Finite(0.0), c)
  {
    var q := t.points[c];
    var ds := Distances(t, dist, q);
    forall i: nat | i < |ds| ensures !Precedes(ds, i, c) {
      if i != c {
        assert ds[i] == dist(t.mode, t.points[c], t.points[i]) > 0.0;
      }
    }
    assert Predecessors(ds, c) == {};
    QueryRankUnique(t, dist, q, c);
  }

  /** Querying from an indexed point: every rank from 2 up to the point count names
      another point, at a positive distance. */
  lemma HigherRankNotSelf(t: Tree, dist: Metric, c: nat, k: int)
    requires IsMetric(dist)
    requires Separated(dist, t.mode, t.points)
    requires c < |t.points|
    requires 2 <= k <= |t.points|
    ensures QueryRank(t, dist, t.points[c], k).id != c
    ensures QueryRank(t, dist, t.points[c], k).d.value > 0.0
  {
    SelfIsRankOne(t, dist, c);
    QueryRankHasRank(t, dist, t.points[c], k);
    var nb := QueryRank(t, dist, t.points[c], k);
    assert nb.id != c;
    assert dist(t.mode, t.points[c], t.points[nb.id]) > 0.0;
  }

  /** The rank queries for a list of ranks, one answer per rank. */
  function QueryRanks(t: Tree, dist: Metric, q: Point, ks: seq<int>): (nbs: seq<Neighbor>)
    requires forall i :: 0 <= i < |ks| ==> ks[i] >= 1
    ensures |nbs| == |ks|
    ensures forall i :: 0 <= i < |ks| ==> nbs[i] == QueryRank(t, dist, q, ks[i])
  {
    seq(|ks|, i requires 0 <= i < |ks| => QueryRank(t, dist, q, ks[i]))
  }
}
