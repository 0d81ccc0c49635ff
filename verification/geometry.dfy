/** Positions, the periodic cell and the abstract distance a spatial index measures with. */
module Geometry {

  /** A position in 3-D space. */
  datatype Point = Point(x: real, y: real, z: real)

  /** The edge lengths of an axis-aligned cell; a length <= 0 leaves that axis non-periodic. */
  datatype Box = Box(lx: real, ly: real, lz: real)

  /** How an index measures distance: wrapped around a box, or plainly. */
  datatype Mode = Periodic(box: Box) | Aperiodic

  /** The distance an index of a given mode measures between two points.
      Kept abstract: it stands for both the minimum-image and the Euclidean distance. */
  type Metric = (Mode, Point, Point) -> real

  /** What the model assumes of every distance: non-negative, symmetric, zero on a point itself. */
  ghost predicate IsMetric(dist: Metric) {
    && (forall m, p, q :: 0.0 <= dist(m, p, q))
    && (forall m, p, q :: dist(m, p, q) == dist(m, q, p))
    && (forall m, p :: dist(m, p, p) == 0.0)
  }

  /** No two of the points are at distance zero under mode `m` (distinct positions). */
  ghost predicate Separated(dist: Metric, m: Mode, pts: seq<Point>) {
    forall i, j :: 0 <= i < |pts| && 0 <= j < |pts| && i != j ==> dist(m, pts[i], pts[j]) > 0.0
  }

  /** A coordinate lies in the half-open cell [0, len) along a periodic axis. */
  predicate AxisFits(c: real, len: real) {
    len <= 0.0 || (0.0 <= c && c < len)
  }

  predicate InBox(p: Point, b: Box) {
    AxisFits(p.x, b.lx) && AxisFits(p.y, b.ly) && AxisFits(p.z, b.lz)
  }

  /** Every point lies inside the box, which is what a periodic index accepts. */
  predicate FitsBox(pts: seq<Point>, b: Box) {
    forall i :: 0 <= i < |pts| ==> InBox(pts[i], b)
  }

  predicate Increasing(s: seq<nat>) {
    forall a, b :: 0 <= a < b < |s| ==> s[a] < s[b]
  }

  predicate IndicesBelow(ids: seq<nat>, n: nat) {
    forall k :: 0 <= k < |ids| ==> ids[k] < n
  }

  /** The points selected by `ids`, in the order of `ids` (array fancy-indexing). */
  function Gather(pts: seq<Point>, ids: seq<nat>): (sub: seq<Point>)
    requires IndicesBelow(ids, |pts|)
    ensures |sub| == |ids|
    ensures forall k :: 0 <= k < |ids| ==> sub[k] == pts[ids[k]]
  {
    seq(|ids|, k requires 0 <= k < |ids| => pts[ids[k]])
  }

  /** Selecting distinct indices of separated points gives separated points. */
  lemma GatherSeparated(dist: Metric, m: Mode, pts: seq<Point>, ids: seq<nat>)
    requires IndicesBelow(ids, |pts|) && Increasing(ids)
    requires Separated(dist, m, pts)
    ensures Separated(dist, m, Gather(pts, ids))
  {
    var sub := Gather(pts, ids);
    forall i, j | 0 <= i < |sub| && 0 <= j < |sub| && i != j
      ensures dist(m, sub[i], sub[j]) > 0.0
    {
      assert ids[i] != ids[j] by {
        if i < j { assert ids[i] < ids[j]; } else { assert ids[j] < ids[i]; }
      }
    }
  }

  /** Any selection of points that fit a box still fits it. */
  lemma GatherFitsBox(pts: seq<Point>, ids: seq<nat>, b: Box)
    requires IndicesBelow(ids, |pts|)
    requires FitsBox(pts, b)
    ensures FitsBox(Gather(pts, ids), b)
  {
  }
}
