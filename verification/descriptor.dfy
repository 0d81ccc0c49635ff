/** The Neighbor Map descriptor of one atom: ball query, local re-indexing, rank queries
    from the central atom and its neighbours, row weights, assembly and zero padding. */
module Descriptor {
  import opened Results
  import opened Geometry
  import opened SpatialIndex
  import opened Padding

  /** A particle configuration: positions (already wrapped into the cell) and the cell's edge lengths. */
  datatype Configuration = Configuration(positions: seq<Point>, box: Box)

  /** The floating-point operations the descriptor applies, left uninterpreted:
      `invCbrt(x)` stands for x ** (-1/3) and `sqrt` for the square root. */
  datatype Numerics = Numerics(invCbrt: real -> real, sqrt: real -> real) {
    /** The two facts the model relies on: 1 ** (-1/3) == 1 and sqrt(0) == 0. */
    predicate Valid() {
      invCbrt(1.0) == 1.0 && sqrt(0.0) == 0.0
    }
  }

  /** No two atoms coincide under either distance an index may be built with. */
  ghost predicate DistinctPositions(dist: Metric, cfg: Configuration) {
    Separated(dist, Aperiodic, cfg.positions) && Separated(dist, Periodic(cfg.box), cfg.positions)
  }

  function Min(a: int, b: int): int {
    if a <= b then a else b
  }

  /** Array indexing of the positions: ids from -count to count-1 are accepted,
      negative ones counting from the end. */
  function AtomIndex(id: int, count: nat): (r: Option<nat>)
    ensures r.Some? <==> 0 <= id + count && id < count
    ensures r.Some? ==> r.value < count && r.value == id % count
  {
    if 0 <= id < count then Some(id)
    else if 0 <= id + count && id < 0 then Some(id + count)
    else None
  }

  // ---------------------------------------------------------------- neighbourhood

  /** Indices of the atoms within `rCut` of atom `a`, from the index over the whole configuration. */
  function BallIds(cfg: Configuration, dist: Metric, a: nat, rCut: real): (ids: seq<nat>)
    requires a < |cfg.positions|
    ensures Increasing(ids) && IndicesBelow(ids, |cfg.positions|)
  {
    Ball(Build(cfg.positions, cfg.box), dist, cfg.positions[a], rCut)
  }

  /** The index rebuilt over just the atoms in the ball, renumbered 0 .. n-1. */
  function LocalTree(cfg: Configuration, dist: Metric, a: nat, rCut: real): (lt: Tree)
    requires a < |cfg.positions|
    ensures |lt.points| == |BallIds(cfg, dist, a, rCut)|
  {
    Build(Gather(cfg.positions, BallIds(cfg, dist, a, rCut)), cfg.box)
  }

  /** The ball holds the central atom exactly when the cutoff is non-negative (and is empty
      otherwise); the renumbered points stay pairwise distinct. */
  lemma CentralInBall(cfg: Configuration, dist: Metric, a: nat, rCut: real)
    requires IsMetric(dist) && DistinctPositions(dist, cfg)
    requires a < |cfg.positions|
    ensures rCut >= 0.0 ==> a in BallIds(cfg, dist, a, rCut)
    ensures rCut >= 0.0 ==> cfg.positions[a] in LocalTree(cfg, dist, a, rCut).points
    ensures rCut >= 0.0 <==> |LocalTree(cfg, dist, a, rCut).points| >= 1
    ensures Separated(dist, LocalTree(cfg, dist, a, rCut).mode, LocalTree(cfg, dist, a, rCut).points)
  {
    var atom := cfg.positions[a];
    var global := Build(cfg.positions, cfg.box);
    var ids := BallIds(cfg, dist, a, rCut);
    var lt := LocalTree(cfg, dist, a, rCut);
    assert dist(global.mode, atom, atom) == 0.0;
    if |ids| > 0 {
      assert ids[0] in ids;
      assert dist(global.mode, atom, cfg.positions[ids[0]]) <= rCut;
    }
    if rCut >= 0.0 {
      assert a in ids;
      var k :| 0 <= k < |ids| && ids[k] == a;
      assert lt.points[k] == atom;
    }
    GatherSeparated(dist, Aperiodic, cfg.positions, ids);
    GatherSeparated(dist, Periodic(cfg.box), cfg.positions, ids);
  }

  // ---------------------------------------------------------------- ranks

  /** [lo, lo+1, ..., hi-1], empty when hi <= lo (an integer range with unit step). */
  function Range(lo: int, hi: int): (r: seq<int>)
    ensures |r| == if hi <= lo then 0 else hi - lo
    ensures forall i :: 0 <= i < |r| ==> r[i] == lo + i
    decreases hi - lo
  {
    if hi <= lo then [] else [lo] + Range(lo + 1, hi)
  }

  /** The ranks queried around a ball of `n` atoms for a target side of `target`. */
  function RankList(target: int, n: nat): (ks: seq<int>)
    ensures forall i :: 0 <= i < |ks| ==> ks[i] == i + 2
  {
    Range(2, Min(target, n) + 2)
  }

  /** `ks` is [2, 3, ..., |ks|+1], non-empty and no longer than the `n` indexed points. */
  predicate IsRankList(ks: seq<int>, n: nat) {
    1 <= |ks| <= n && forall i :: 0 <= i < |ks| ==> ks[i] == i + 2
  }

  /** The rank list is [2, ..., min(target, n)+1]: as long as the image side, and rank 1
      (the query point itself) is never asked for. */
  lemma RankListShape(target: int, n: nat)
    ensures |RankList(target, n)| == if Min(target, n) <= 0 then 0 else Min(target, n)
    ensures forall i :: 0 <= i < |RankList(target, n)| ==> RankList(target, n)[i] == i + 2
    ensures 1 !in RankList(target, n)
    ensures |RankList(target, n)| == 0 <==> target < 1 || n == 0
    ensures target >= 1 && n >= 1 ==> IsRankList(RankList(target, n), n)
  {
  }

  /** Every requested rank is at most the ball size exactly when the ball is larger than
      the target; otherwise the last rank is n+1 and its query comes back missing. */
  lemma RanksWithinBallIff(t: Tree, dist: Metric, q: Point, target: int)
    requires target >= 1 && |t.points| >= 1
    ensures var ks := RankList(target, |t.points|);
      (forall i :: 0 <= i < |ks| ==> ks[i] <= |t.points|) <==> |t.points| > target
    ensures var ks := RankList(target, |t.points|);
      |t.points| <= target ==>
        ks[|ks| - 1] == |t.points| + 1 &&
        QueryRank(t, dist, q, ks[|ks| - 1]) == Neighbor(Missing, |t.points|)
  {
    var n := |t.points|;
    var ks := RankList(target, n);
    RankListShape(target, n);
    assert ks[|ks| - 1] == |ks| + 1;
  }

  // ---------------------------------------------------------------- distance matrix

  function DistRow(nbs: seq<Neighbor>): (row: seq<Dist>)
    ensures |row| == |nbs|
    ensures forall i :: 0 <= i < |nbs| ==> row[i] == nbs[i].d
  {
    seq(|nbs|, i requires 0 <= i < |nbs| => nbs[i].d)
  }

  /** The ranked distances from the indexed point `anchor.id`. */
  function AnchorRow(lt: Tree, dist: Metric, anchor: Neighbor, ks: seq<int>): (row: seq<Dist>)
    requires anchor.id < |lt.points|
    requires forall i :: 0 <= i < |ks| ==> ks[i] >= 1
    ensures |row| == |ks|
  {
    DistRow(QueryRanks(lt, dist, lt.points[anchor.id], ks))
  }

  /** The stacked distance matrix: the central point's ranked distances, then one row per
      neighbour of the central point except the last-ranked one (see `RankMatrixEntries`). */
  function RankMatrix(lt: Tree, dist: Metric, q: Point, ks: seq<int>): (v: seq<seq<Dist>>)
    requires IsRankList(ks, |lt.points|)
    ensures IsSquare(v, |ks|)
  {
    var central := QueryRanks(lt, dist, q, ks);
    var anchors := central[..|central| - 1];
    AnchorsInBall(lt, dist, q, ks);
    [DistRow(central)] + AnchorRows(lt, dist, anchors, ks)
  }

  /** Every neighbour kept by dropping the last rank lies inside the ball, because only
      the last rank can exceed the ball size. */
  lemma AnchorsInBall(lt: Tree, dist: Metric, q: Point, ks: seq<int>)
    requires IsRankList(ks, |lt.points|)
    ensures var central := QueryRanks(lt, dist, q, ks);
      forall i :: 0 <= i < |ks| - 1 ==> central[i].id < |lt.points|
  {
    var central := QueryRanks(lt, dist, q, ks);
    forall i | 0 <= i < |ks| - 1 ensures central[i].id < |lt.points| {
      assert central[i] == QueryRank(lt, dist, q, ks[i]);
      assert ks[i] <= |lt.points|;
    }
  }

  function AnchorRows(lt: Tree, dist: Metric, anchors: seq<Neighbor>, ks: seq<int>): (rows: seq<seq<Dist>>)
    requires forall i :: 0 <= i < |anchors| ==> anchors[i].id < |lt.points|
    requires forall i :: 0 <= i < |ks| ==> ks[i] >= 1
    ensures |rows| == |anchors|
    ensures forall i :: 0 <= i < |anchors| ==> rows[i] == AnchorRow(lt, dist, anchors[i], ks)
  {
    seq(|anchors|, i requires 0 <= i < |anchors| => AnchorRow(lt, dist, anchors[i], ks))
  }

  /** The neighbour behind row `i` >= 1 of the matrix: the central point's rank-(i+1) neighbour. */
  function Anchor(lt: Tree, dist: Metric, q: Point, i: int): Neighbor
    requires i >= 0
  {
    QueryRank(lt, dist, q, i + 1)
  }

  /** Row `i` >= 1 holds the ranked distances from q's rank-(i+1) neighbour, an index inside the ball. */
  lemma RankMatrixRow(lt: Tree, dist: Metric, q: Point, ks: seq<int>, i: int)
    requires IsRankList(ks, |lt.points|)
    requires 1 <= i < |ks|
    ensures Anchor(lt, dist, q, i).id < |lt.points|
    ensures RankMatrix(lt, dist, q, ks)[i] == AnchorRow(lt, dist, Anchor(lt, dist, q, i), ks)
  {
    var central := QueryRanks(lt, dist, q, ks);
    var anchors := central[..|central| - 1];
    AnchorsInBall(lt, dist, q, ks);
    var rows := AnchorRows(lt, dist, anchors, ks);
    var v := RankMatrix(lt, dist, q, ks);
    assert v == [DistRow(central)] + rows;
    assert ks[i - 1] == i + 1;
    assert anchors[i - 1] == central[i - 1] == Anchor(lt, dist, q, i);
    assert v[i] == rows[i - 1] == AnchorRow(lt, dist, anchors[i - 1], ks);
  }

  /** Row 0 of the matrix: entry j is the rank-(j+2) distance from `q`. */
  lemma RankMatrixCentralEntry(lt: Tree, dist: Metric, q: Point, ks: seq<int>, j: int)
    requires IsRankList(ks, |lt.points|)
    requires 0 <= j < |ks|
    ensures RankMatrix(lt, dist, q, ks)[0][j] == QueryRank(lt, dist, q, j + 2).d
  {
    var v := RankMatrix(lt, dist, q, ks);
    assert v[0] == DistRow(QueryRanks(lt, dist, q, ks));
    assert ks[j] == j + 2;
  }

  /** Row i >= 1 of the matrix: entry j is the rank-(j+2) distance from q's rank-(i+1) neighbour. */
  lemma RankMatrixNeighbourEntry(lt: Tree, dist: Metric, q: Point, ks: seq<int>, i: int, j: int)
    requires IsRankList(ks, |lt.points|)
    requires 1 <= i < |ks| && 0 <= j < |ks|
    ensures Anchor(lt, dist, q, i).id < |lt.points|
    ensures RankMatrix(lt, dist, q, ks)[i][j] == QueryRank(lt, dist, lt.points[Anchor(lt, dist, q, i).id], j + 2).d
  {
    RankMatrixRow(lt, dist, q, ks, i);
    var row := AnchorRow(lt, dist, Anchor(lt, dist, q, i), ks);
    assert RankMatrix(lt, dist, q, ks)[i] == row;
    assert ks[j] == j + 2;
    assert row[j] == QueryRanks(lt, dist, lt.points[Anchor(lt, dist, q, i).id], ks)[j].d;
  }

  /** Entry by entry: v[0][j] is the rank-(j+2) distance from `q`, and v[i][j] for i >= 1 the
      rank-(j+2) distance from q's rank-(i+1) neighbour. */
  lemma RankMatrixEntries(lt: Tree, dist: Metric, q: Point, ks: seq<int>)
    requires IsRankList(ks, |lt.points|)
    ensures var v := RankMatrix(lt, dist, q, ks);
      forall j :: 0 <= j < |ks| ==> v[0][j] == QueryRank(lt, dist, q, j + 2).d
    ensures forall i :: 1 <= i < |ks| ==> Anchor(lt, dist, q, i).id < |lt.points|
    ensures var v := RankMatrix(lt, dist, q, ks);
      forall i, j :: 1 <= i < |ks| && 0 <= j < |ks| ==>
        v[i][j] == QueryRank(lt, dist, lt.points[Anchor(lt, dist, q, i).id], j + 2).d
  {
    forall j | 0 <= j < |ks| ensures RankMatrix(lt, dist, q, ks)[0][j] == QueryRank(lt, dist, q, j + 2).d {
      RankMatrixCentralEntry(lt, dist, q, ks, j);
    }
    forall i | 1 <= i < |ks| ensures Anchor(lt, dist, q, i).id < |lt.points| {
      RankMatrixRow(lt, dist, q, ks, i);
    }
    forall i, j | 1 <= i < |ks| && 0 <= j < |ks|
      ensures RankMatrix(lt, dist, q, ks)[i][j] == QueryRank(lt, dist, lt.points[Anchor(lt, dist, q, i).id], j + 2).d
    {
      RankMatrixNeighbourEntry(lt, dist, q, ks, i, j);
    }
  }

  /** Where the matrix has a missing entry: exactly in the columns whose rank j+2 exceeds
      the ball size, which is only the last column, and only when n <= the rank count. */
  lemma RankMatrixMissing(lt: Tree, dist: Metric, q: Point, ks: seq<int>)
    requires IsRankList(ks, |lt.points|)
    ensures var v := RankMatrix(lt, dist, q, ks);
      forall i, j :: 0 <= i < |ks| && 0 <= j < |ks| ==>
        (v[i][j].Missing? <==> (j == |ks| - 1 && |ks| == |lt.points|))
  {
  }

  /** One entry of the matrix built from the indexed point `c`: where finite, it is positive. */
  lemma RankMatrixEntryPositive(lt: Tree, dist: Metric, c: nat, ks: seq<int>, i: int, j: int)
    requires IsRankList(ks, |lt.points|)
    requires IsMetric(dist) && Separated(dist, lt.mode, lt.points)
    requires c < |lt.points|
    requires 0 <= i < |ks| && 0 <= j < |ks|
    requires RankMatrix(lt, dist, lt.points[c], ks)[i][j].Finite?
    ensures RankMatrix(lt, dist, lt.points[c], ks)[i][j].value > 0.0
  {
    var q := lt.points[c];
    var v := RankMatrix(lt, dist, q, ks);
    assert ks[j] == j + 2;
    var src: nat := c;
    if i > 0 {
      RankMatrixNeighbourEntry(lt, dist, q, ks, i, j);
      src := Anchor(lt, dist, q, i).id;
    } else {
      RankMatrixCentralEntry(lt, dist, q, ks, j);
    }
    var nb := QueryRank(lt, dist, lt.points[src], j + 2);
    assert v[i][j] == nb.d;
    HigherRankNotSelf(lt, dist, src, j + 2);
    assert nb.d.value > 0.0;
  }

  /** Ranked distances from an atom of the ball are positive wherever they are finite,
      because rank 1 (distance 0) is never requested. */
  lemma RankMatrixPositive(lt: Tree, dist: Metric, q: Point, ks: seq<int>)
    requires IsRankList(ks, |lt.points|)
    requires IsMetric(dist) && Separated(dist, lt.mode, lt.points)
    requires q in lt.points
    ensures var v := RankMatrix(lt, dist, q, ks);
      forall i, j :: 0 <= i < |ks| && 0 <= j < |ks| && v[i][j].Finite? ==> v[i][j].value > 0.0
  {
    var c :| 0 <= c < |lt.points| && lt.points[c] == q;
    var v: seq<seq<Dist>> := RankMatrix(lt, dist, q, ks);
    forall i: int, j: int | 0 <= i < |ks| && 0 <= j < |ks| && v[i][j].Finite?
      ensures v[i][j].value > 0.0
    {
      RankMatrixEntryPositive(lt, dist, c, ks, i, j);
    }
  }

  // ---------------------------------------------------------------- weights and assembly

  /** x ** (-1/3) on a rank-query distance; inf ** (-1/3) is 0. */
  function PowDist(num: Numerics, d: Dist): real {
    match d
    case Finite(x) => num.invCbrt(x)
    case Missing => 0.0
  }

  /** Row weights: 1 followed by the central row without its last entry, each raised to -1/3. */
  function Weights(num: Numerics, v: seq<seq<Dist>>): (w: seq<real>)
    requires |v| >= 1 && |v[0]| >= 1
    ensures |w| == |v[0]|
  {
    var shifted := [Finite(1.0)] + v[0][..|v[0]| - 1];
    seq(|shifted|, i requires 0 <= i < |shifted| => PowDist(num, shifted[i]))
  }

  /** The weights of a rank matrix: w[0] is 1 and w[i] is the -1/3 power of the central
      atom's distance to its rank-(i+1) neighbour, which is always a finite distance. */
  lemma WeightsOfRankMatrix(num: Numerics, lt: Tree, dist: Metric, q: Point, ks: seq<int>)
    requires num.Valid()
    requires IsRankList(ks, |lt.points|)
    ensures var v := RankMatrix(lt, dist, q, ks);
      var w := Weights(num, v);
      && |w| == |ks|
      && w[0] == 1.0
      && forall i :: 1 <= i < |ks| ==>
        && v[0][i - 1] == Finite(dist(lt.mode, q, lt.points[Anchor(lt, dist, q, i).id]))
        && w[i] == num.invCbrt(v[0][i - 1].value)
  {
  }

  predicate FiniteNonZero(v: seq<seq<Dist>>) {
    forall i, j :: 0 <= i < |v| && 0 <= j < |v[i]| && v[i][j].Finite? ==> v[i][j].value != 0.0
  }

  /** One image entry, sqrt(w / d^2), with w / inf^2 taken as 0. */
  function Entry(num: Numerics, w: real, d: Dist): real
    requires d.Finite? ==> d.value != 0.0
  {
    match d
    case Finite(x) => num.sqrt(w / (x * x))
    case Missing => num.sqrt(0.0)
  }

  /** The unpadded image: entry [i][j] is sqrt(w[i] / v[i][j]^2), the weight scaling a whole row. */
  function Assemble(num: Numerics, w: seq<real>, v: seq<seq<Dist>>): (img: Matrix)
    requires |w| == |v| && FiniteNonZero(v)
    ensures |img| == |v|
    ensures forall i :: 0 <= i < |v| ==> |img[i]| == |v[i]|
    ensures forall i, j :: 0 <= i < |v| && 0 <= j < |v[i]| ==> img[i][j] == Entry(num, w[i], v[i][j])
  {
    seq(|v|, i requires 0 <= i < |v| =>
      seq(|v[i]|, j requires 0 <= j < |v[i]| => Entry(num, w[i], v[i][j])))
  }

  /** The image before padding, for a query point inside the ball. */
  function RawImage(num: Numerics, lt: Tree, dist: Metric, q: Point, ks: seq<int>): (img: Matrix)
    requires IsRankList(ks, |lt.points|)
    requires IsMetric(dist) && Separated(dist, lt.mode, lt.points) && q in lt.points
    ensures IsSquare(img, |ks|)
  {
    var v := RankMatrix(lt, dist, q, ks);
    RankMatrixPositive(lt, dist, q, ks);
    Assemble(num, Weights(num, v), v)
  }

  /** Each entry of the raw image: 0 where the rank is missing, otherwise
      sqrt(w[i] / d^2) for the positive finite distance d of the rank matrix. */
  lemma RawImageEntries(num: Numerics, lt: Tree, dist: Metric, q: Point, ks: seq<int>)
    requires num.Valid()
    requires IsRankList(ks, |lt.points|)
    requires IsMetric(dist) && Separated(dist, lt.mode, lt.points) && q in lt.points
    ensures var v := RankMatrix(lt, dist, q, ks);
      var w := Weights(num, v);
      var img := RawImage(num, lt, dist, q, ks);
      forall i, j :: 0 <= i < |ks| && 0 <= j < |ks| ==>
        if j + 2 > |lt.points| then img[i][j] == 0.0
        else v[i][j].Finite? && v[i][j].value > 0.0 && img[i][j] == num.sqrt(w[i] / (v[i][j].value * v[i][j].value))
  {
    RankMatrixPositive(lt, dist, q, ks);
  }

  // ---------------------------------------------------------------- the descriptor

  /** The Neighbor Map of atom `atomId`: a `target` x `target` image whose top-left
      min(n, target) block is populated, n being the number of atoms within `rCut`.
      The target size defaults to 32. */
  function GetDescriptor(cfg: Configuration, dist: Metric, num: Numerics, atomId: int, rCut: real, target: int := 32)
    : (r: Result<Matrix>)
    requires IsMetric(dist) && DistinctPositions(dist, cfg)
    ensures r.Failure? <==> AtomIndex(atomId, |cfg.positions|).None? || target < 1 || rCut < 0.0
    ensures r.Failure? ==>
      r.error == if AtomIndex(atomId, |cfg.positions|).None? then IndexError else EmptyRankList
    ensures r.Success? ==> IsSquare(r.value, target)
    ensures r.Success? ==>
      var n := |BallIds(cfg, dist, AtomIndex(atomId, |cfg.positions|).value, rCut)|;
      forall i, j :: 0 <= i < target && 0 <= j < target && (Min(n, target) <= i || Min(n, target) <= j) ==>
        r.value[i][j] == 0.0
  {
    match AtomIndex(atomId, |cfg.positions|)
    case None => Failure(IndexError)
    case Some(a) =>
      var atom := cfg.positions[a];
      var lt := LocalTree(cfg, dist, a, rCut);
      var n := |lt.points|;
      var ks := RankList(target, n);
      CentralInBall(cfg, dist, a, rCut);
      RankListShape(target, n);
      if |ks| == 0 then
        Failure(EmptyRankList)
      else
        Pad(RawImage(num, lt, dist, atom, ks), Min(n, target), target)
  }

  /** A computed descriptor is the raw image in its top-left min(n, target) block. */
  lemma DescriptorBlock(cfg: Configuration, dist: Metric, num: Numerics, atomId: int, rCut: real, target: int)
    requires IsMetric(dist) && DistinctPositions(dist, cfg)
    requires GetDescriptor(cfg, dist, num, atomId, rCut, target).Success?
    ensures var a := AtomIndex(atomId, |cfg.positions|).value;
      var lt := LocalTree(cfg, dist, a, rCut);
      var ks := RankList(target, |lt.points|);
      && IsRankList(ks, |lt.points|)
      && |ks| == Min(|lt.points|, target)
      && cfg.positions[a] in lt.points
      && Separated(dist, lt.mode, lt.points)
      && Crop(GetDescriptor(cfg, dist, num, atomId, rCut, target).value, |ks|)
         == RawImage(num, lt, dist, cfg.positions[a], ks)
  {
    var a := AtomIndex(atomId, |cfg.positions|).value;
    var lt := LocalTree(cfg, dist, a, rCut);
    var ks := RankList(target, |lt.points|);
    CentralInBall(cfg, dist, a, rCut);
    RankListShape(target, |lt.points|);
    PadCropRoundTrip(RawImage(num, lt, dist, cfg.positions[a], ks), |ks|, target);
  }

  /** When the ball holds no more atoms than the target side, the last populated column
      (rank n+1, which does not exist) is zero in every row. */
  lemma LastColumnZero(cfg: Configuration, dist: Metric, num: Numerics, atomId: int, rCut: real, target: int)
    requires IsMetric(dist) && DistinctPositions(dist, cfg) && num.Valid()
    requires GetDescriptor(cfg, dist, num, atomId, rCut, target).Success?
    requires |BallIds(cfg, dist, AtomIndex(atomId, |cfg.positions|).value, rCut)| <= target
    ensures var n := |BallIds(cfg, dist, AtomIndex(atomId, |cfg.positions|).value, rCut)|;
      n >= 1 &&
      forall i :: 0 <= i < target ==> GetDescriptor(cfg, dist, num, atomId, rCut, target).value[i][n - 1] == 0.0
  {
    var m := GetDescriptor(cfg, dist, num, atomId, rCut, target).value;
    var a := AtomIndex(atomId, |cfg.positions|).value;
    var lt := LocalTree(cfg, dist, a, rCut);
    var n := |lt.points|;
    var ks := RankList(target, n);
    DescriptorBlock(cfg, dist, num, atomId, rCut, target);
    RawImageEntries(num, lt, dist, cfg.positions[a], ks);
    var img := RawImage(num, lt, dist, cfg.positions[a], ks);
    forall i | 0 <= i < target ensures m[i][n - 1] == 0.0 {
      if i < n {
        assert m[i][n - 1] == Crop(m, n)[i][n - 1] == img[i][n - 1];
      }
    }
  }

  /** With only the central atom in the ball, the whole descriptor is zero. */
  lemma SingleAtomAllZero(cfg: Configuration, dist: Metric, num: Numerics, atomId: int, rCut: real, target: int)
    requires IsMetric(dist) && DistinctPositions(dist, cfg) && num.Valid()
    requires GetDescriptor(cfg, dist, num, atomId, rCut, target).Success?
    requires |BallIds(cfg, dist, AtomIndex(atomId, |cfg.positions|).value, rCut)| == 1
    ensures forall i, j :: 0 <= i < target && 0 <= j < target ==>
      GetDescriptor(cfg, dist, num, atomId, rCut, target).value[i][j] == 0.0
  {
    LastColumnZero(cfg, dist, num, atomId, rCut, target);
  }

  /** When the ball holds more atoms than the target side, the image needs no padding
      and every ranked distance behind it is a finite, positive distance. */
  lemma FullyPopulated(cfg: Configuration, dist: Metric, num: Numerics, atomId: int, rCut: real, target: int)
    requires IsMetric(dist) && DistinctPositions(dist, cfg)
    requires GetDescriptor(cfg, dist, num, atomId, rCut, target).Success?
    requires |BallIds(cfg, dist, AtomIndex(atomId, |cfg.positions|).value, rCut)| > target
    ensures var a := AtomIndex(atomId, |cfg.positions|).value;
      var lt := LocalTree(cfg, dist, a, rCut);
      var ks := RankList(target, |lt.points|);
      var v := RankMatrix(lt, dist, cfg.positions[a], ks);
      && |ks| == target
      && GetDescriptor(cfg, dist, num, atomId, rCut, target).value == RawImage(num, lt, dist, cfg.positions[a], ks)
      && forall i, j :: 0 <= i < target && 0 <= j < target ==> v[i][j].Finite? && v[i][j].value > 0.0
  {
    var a := AtomIndex(atomId, |cfg.positions|).value;
    var lt := LocalTree(cfg, dist, a, rCut);
    var ks := RankList(target, |lt.points|);
    DescriptorBlock(cfg, dist, num, atomId, rCut, target);
    RankMatrixMissing(lt, dist, cfg.positions[a], ks);
    RankMatrixPositive(lt, dist, cfg.positions[a], ks);
    PadFullSizeIsIdentity(RawImage(num, lt, dist, cfg.positions[a], ks), target);
  }
}
