# Neighbor Map descriptor — a Dafny model

This project models how `Atoms.get_descriptor` in `neighbor_map.py` builds the Neighbor Map
of one atom. The Neighbor Map is a fixed-size square image made from ranked interatomic
distances. The steps modelled are:

- the ball query of all atoms within `r_cut` of the central atom;
- renumbering those atoms as a small point set of their own;
- rebuilding a spatial index over that set, periodic or with the non-periodic fallback;
- the rank list `[2, ..., min(target, n) + 1]`;
- one rank query from the central atom, and one from each of its first `image_size - 1` neighbours;
- stacking those rows into the square matrix `v`;
- the row weights `A = [1, v[0][0], ..., v[0][s-2]] ** (-1/3)`;
- the image `sqrt(A / v**2)`, zero-padded to `target x target`.

The KD-tree becomes a brute-force specification (module `SpatialIndex`):

- A ball query is a filter `dist(q, p) <= r`, boundary included.
- A rank-`k` query returns the `k`-th point of a stable order. Points are ordered by distance, and ties go to the lower index.
- Ranks past the last point return a missing answer (infinite distance, index `n`).
- The distance itself is an abstract `Metric` over a `Mode` (periodic in a box, or not). It is assumed non-negative, symmetric and zero on a point itself. This covers both the periodic index and the non-periodic fallback.

The order is computed by insertion sort (`Order`). `Rank` gives an independent reference
definition: one plus the number of points that come before. `RankAtPosition` proves that
the two agree.

Floating-point operations are left uninterpreted. The record `Numerics` carries
`invCbrt` (x ** (-1/3)) and `sqrt`. The model assumes only two facts about them:
`invCbrt(1) = 1` and `sqrt(0) = 0`. Two float rules are written out explicitly:

- `w / inf**2 = 0`, so a missing rank gives an entry of `sqrt(0)`;
- `inf ** (-1/3) = 0` (this case is never reached, which `WeightsOfRankMatrix` proves).

Modules: `Results` (errors and wrappers), `Geometry` (points, box, metric, selection),
`SpatialIndex`, `Padding` and `Descriptor`.

The code does not validate its arguments; the model follows the code:

- `r_cut` is not validated. Under the filter specification of the ball query, `r_cut = 0` gives a ball holding only the central atom (plus any coincident atoms), and a negative `r_cut` gives an empty ball. This is a modelling choice, not something the code shows.
- `img_target_size` is not validated.
- With an empty ball (under the filter specification, a negative `r_cut`), or a target below 1, the rank list is empty. The KD-tree query rejects an empty rank list, so the model reports `EmptyRankList`.
- A negative `atom_id` counts from the end, as array indexing does. An id outside `[-N, N)` reports `IndexError`.
- The comment at line 65 says the ranks never exceed the number of atoms in the ball. That holds only when `n > img_target_size`. Otherwise the last rank is `n + 1`. Its query comes back missing, and that column of the image is zero. This is proved in `RanksWithinBallIff`, `RankMatrixMissing` and `LastColumnZero`.

## Model

| member | source | states |
|---|---|---|
| `Padding.Pad` | neighbor_map.py:34-42 | pad succeeds exactly when image_size <= target_size; the result is target x target, the top-left image block is unchanged and every other entry is 0 |
| `Padding.PadCropRoundTrip` | neighbor_map.py:42 | cropping the padded image back to image_size x image_size returns the original image |
| `Padding.PadFullSizeIsIdentity` | neighbor_map.py:42 | padding to the image's own size returns the image unchanged |
| `SpatialIndex.Build` | neighbor_map.py:25-31 | building an index never fails: it keeps the given points and is either periodic in the given box or the non-periodic fallback |
| `SpatialIndex.BuildPeriodicPointwise` | neighbor_map.py:26-31 | acceptance is decided point by point: the index over all points is periodic exactly when the index over each single point would be |
| `SpatialIndex.BuildFallbackIff` | neighbor_map.py:26-31 | the index falls back to the non-periodic one exactly when some point has a coordinate that is negative or reaches the length on some axis of positive length |
| `SpatialIndex.SelectionKeepsPeriodic` | neighbor_map.py:60-63 | if the whole-configuration index is periodic, the index rebuilt over the ball's atoms is periodic in the same box |
| `SpatialIndex.Ball` | neighbor_map.py:60 | the ball holds each index once, in range, and an index is in it if and only if its point is within the radius (boundary included) |
| `SpatialIndex.Order` | neighbor_map.py:69 | the query order lists every index exactly once, sorted by distance with ties broken by the lower index |
| `SpatialIndex.RankAtPosition` | neighbor_map.py:69 | the point at position k of the order has reference rank k+1 (one plus the number of points before it) |
| `SpatialIndex.RankInjective` | neighbor_map.py:69 | two points with the same rank are the same point, so the tie-break is deterministic |
| `SpatialIndex.QueryRank` | neighbor_map.py:69 | a rank k within the point count returns an in-range index together with that point's distance; a rank past it returns the missing answer (infinite distance, index n) |
| `SpatialIndex.QueryRankHasRank` | neighbor_map.py:69 | the point a found rank-k query returns has reference rank k |
| `SpatialIndex.QueryRankUnique` | neighbor_map.py:69 | the rank-k query returns the one point whose reference rank is k |
| `SpatialIndex.QueryRanks` | neighbor_map.py:69-72 | a query for a list of ranks answers each rank in order (entry j is the rank-ks[j] answer); what each answer means is carried by `SpatialIndex.QueryRank` and `SpatialIndex.QueryRankHasRank` |
| `SpatialIndex.SelfIsRankOne` | neighbor_map.py:65-66 | querying from an indexed point with distinct positions: rank 1 is the point itself at distance 0 |
| `SpatialIndex.HigherRankNotSelf` | neighbor_map.py:65-69 | every rank from 2 to n names another point, at a positive distance |
| `Geometry.Gather` | neighbor_map.py:61 | the selection has one point per index, the k-th being the point at the k-th index; its separation is carried by `Geometry.GatherSeparated` |
| `Geometry.GatherSeparated` | neighbor_map.py:61 | renumbering distinct atoms of the ball keeps them pairwise distinct |
| `Descriptor.AtomIndex` | neighbor_map.py:57 | an atom id is accepted exactly when -N <= id < N; the resolved position index is id mod N |
| `Descriptor.BallIds` | neighbor_map.py:60 | the ball's indices are increasing and in range; membership is carried by `SpatialIndex.Ball` and `Descriptor.CentralInBall` |
| `Descriptor.LocalTree` | neighbor_map.py:61-63 | the index over the ball has one point per ball index; its mode and separation are carried by `SpatialIndex.SelectionKeepsPeriodic` and `Descriptor.CentralInBall` |
| `Descriptor.CentralInBall` | neighbor_map.py:57-63 | the ball holds the central atom exactly when r_cut >= 0, so then n >= 1; with r_cut < 0 it is empty; the local points are pairwise distinct |
| `Descriptor.Range` | neighbor_map.py:66 | the integer range [lo, hi) has length max(0, hi-lo), and its i-th element is lo+i |
| `Descriptor.RankList` | neighbor_map.py:66 | entry i of the rank list is rank i+2; its length and the absence of rank 1 are carried by `Descriptor.RankListShape` |
| `Descriptor.RankListShape` | neighbor_map.py:65-66 | the rank list is [2, ..., min(target, n)+1]: its length is the image size, it never holds rank 1, and it is empty exactly when target < 1 or n = 0 |
| `Descriptor.RanksWithinBallIff` | neighbor_map.py:65-69 | every rank is at most n if and only if n > target; otherwise the last rank is n+1 and its query returns the missing answer |
| `Descriptor.AnchorsInBall` | neighbor_map.py:69-72 | the neighbours kept by dropping the last rank all have indices inside the ball |
| `Descriptor.RankMatrix` | neighbor_map.py:69-73 | only that v is square of the image size; its rows and entries are carried by `Descriptor.RankMatrixRow` and `Descriptor.RankMatrixEntries` |
| `Descriptor.RankMatrixRow` | neighbor_map.py:72-73 | row i >= 1 of v holds the ranked distances from the central atom's rank-(i+1) neighbour, whose index is in range |
| `Descriptor.RankMatrixCentralEntry` | neighbor_map.py:69-72 | entry j of row 0 of v is the rank-(j+2) distance from the central atom |
| `Descriptor.RankMatrixNeighbourEntry` | neighbor_map.py:69-73 | entry j of row i >= 1 of v is the rank-(j+2) distance from the central atom's rank-(i+1) neighbour, whose index is in range |
| `Descriptor.RankMatrixEntries` | neighbor_map.py:69-73 | v[0][j] is the rank-(j+2) distance from the central atom; v[i][j] is the rank-(j+2) distance from its rank-(i+1) neighbour |
| `Descriptor.RankMatrixMissing` | neighbor_map.py:66-73 | an entry of v is missing exactly in the last column and only when n equals the image size (n <= target) |
| `Descriptor.RankMatrixPositive` | neighbor_map.py:65-73 | every finite entry of v is a positive distance, since rank 1 is never requested |
| `Descriptor.RankMatrixEntryPositive` | neighbor_map.py:65-73 | a single finite entry of v, for a query from an indexed point with distinct positions, is a positive distance |
| `Descriptor.WeightsOfRankMatrix` | neighbor_map.py:75-81 | A[0] = 1 and A[i] = v[0][i-1] ** (-1/3), where v[0][i-1] is always finite (the distance to the rank-(i+1) neighbour) |
| `Descriptor.Weights` | neighbor_map.py:76-81 | only that A has one weight per row; its values are carried by `Descriptor.WeightsOfRankMatrix` |
| `Descriptor.Assemble` | neighbor_map.py:84 | the image has the shape of v, and entry [i][j] applies the per-entry rule to weight A[i] and distance v[i][j]; what that rule gives on finite and missing distances is carried by `Descriptor.RawImageEntries` |
| `Descriptor.RawImage` | neighbor_map.py:69-84 | only the square shape of the unpadded image; its entries are carried by `Descriptor.RawImageEntries` |
| `Descriptor.RawImageEntries` | neighbor_map.py:78-84 | unpadded entry [i][j] is 0 where rank j+2 exceeds n, and otherwise sqrt(A[i] / d^2) for the positive distance d = v[i][j] |
| `Descriptor.GetDescriptor` | neighbor_map.py:44-84 | fails exactly on an out-of-range atom id (IndexError) or an empty rank list (target < 1 or r_cut < 0); otherwise returns a target x target image that is zero outside the top-left min(n, target) block |
| `Descriptor.DescriptorBlock` | neighbor_map.py:76-84 | the top-left min(n, target) block of the descriptor is exactly the unpadded image sqrt(A / v^2) |
| `Descriptor.LastColumnZero` | neighbor_map.py:65-84 | when n <= target, column n-1 of the descriptor is zero in every row |
| `Descriptor.SingleAtomAllZero` | neighbor_map.py:57-84 | when only the central atom is within r_cut, the whole descriptor is zero |
| `Descriptor.FullyPopulated` | neighbor_map.py:66-84 | when n > target, no padding is applied and every distance behind the image is finite and positive |

## Left out

- The scipy KD-tree internals and its periodic minimum-image arithmetic are foreign code. They are replaced by the brute-force ball and rank specification over the abstract `Metric`.
- The library's tie-breaking between equal distances is not documented. The model fixes one stable rule: the lower index wins.
- The order of the indices a ball query returns is unspecified in the library. The model returns them in ascending order, so local indices follow global ones.
- When the periodic index is accepted is decided inside the KD-tree library. The model takes the library's documented rule: every coordinate lies in `[0, L)` on each axis with `L > 0`. Otherwise it falls back to a non-periodic index.
- The warning emitted on the fallback (line 30) is logging only. The fallback is a total choice of `Mode`.
- The `ase.Atoms` inheritance, `self.wrap()` and `self.cell.lengths()` (lines 17-23) belong to the structure library. The configuration is given as already-wrapped positions plus box lengths. The index over the whole configuration is rebuilt by `Build`, the same function `__init__` uses.
- Floating point is not modelled. `sqrt` and `** (-1/3)` are uninterpreted, infinity is the `Missing` distance, and NaN is absent.
- Coincident atoms are excluded by the `DistinctPositions` precondition, because they would make the image divide by zero.
- The library's ball query with a negative radius is not modelled. The filter `dist <= r` gives an empty ball, so `GetDescriptor` reports `EmptyRankList` for `r_cut < 0`; the library may instead behave as for `|r_cut|`.
- The exact exception a KD-tree query raises for an empty rank list is not modelled. It is reported as `EmptyRankList`.
- `plots/*.py` (plotting and example lattices) and `setup.py` (packaging) are not part of this model.
