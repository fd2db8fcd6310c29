# 2-d tree and brute-force point set, in Dafny

This project models a two-dimensional spatial index over points of the unit
square: the 2-d tree (`KdTree`) and the brute-force baseline (`PointSET`). Both
offer `insert`, `contains`, `size`, `isEmpty`, `range` (all points in an
axis-aligned rectangle, boundary inclusive) and `nearest` (a point at minimal
squared Euclidean distance, or nothing when the structure is empty).

Files:

- `options.dfy` (module `Options`): the `Option` type that stands for a
  nullable reference.
- `geometry.dfy` (module `Geometry`): points, rectangles, the x/y split
  orientation, the two rectangle cuts and the distance bounds behind both
  pruning rules.
- `kdtree.dfy` (module `KdTree`): the tree as an immutable datatype
  `Tree = Nil | Node(key, rect, left, right)`, its representation invariant
  `Valid`, the recursive operations and their correctness lemmas, and the
  public operations on `Index(root, size)`, the tree object with its running size.
- `pointset.dfy` (module `PointSet`): the baseline as a strictly increasing
  sequence of points with linear scans.
- `crosscheck.dfy` (module `CrossCheck`): insertion histories, and the lemmas
  showing that the tree and the baseline agree on every query.
- `scenario.dfy` (module `Scenario`): worked examples on concrete trees.

Modelling choices:

- Coordinates are `real`. Squared distances are compared directly, so no
  square root is needed.
- The tree is immutable. The recursive insert returns the new subtree and a
  flag that says whether a node was created. The size grows exactly when that
  flag is set, as `size++` does in the source.
- The running best of the nearest search is an `Option<Point>`. `None` stands
  for the initial infinite distance, and `Improves(d, q, best)` is the strict
  `d < best` test.
- Results of `range` are collected in an unordered bag, so they are modelled
  as a `multiset<Point>`.
- The baseline's ordered set is a sequence kept strictly increasing in the
  natural order of points: by y, then by x. Iterating the set is walking the
  sequence, so "the first minimum in iteration order" has a precise meaning.

Routing of ties: the source compares `compare(key, p)` and goes left only
when the result is positive (KdTree.java:72-81 and 107-114). A point goes
left only if its coordinate on the splitting axis is strictly smaller than
the key's. A point with an equal coordinate goes right.
`Scenario.TieGoesRight` shows the right-going case on a concrete tree.

## Model

| member | source | states |
|---|---|---|
| Geometry.Compare | KdTree.java:249-255 | the comparison of two coordinates is negative, zero or positive exactly when the first is smaller than, equal to or larger than the second |
| Geometry.LeftRect | KdTree.java:227-236 | the lower child's region is the parent's region with its upper side on the split axis moved to the key; it is well formed and inside the parent when the key lies in the parent |
| Geometry.RightRect | KdTree.java:238-247 | the upper child's region is the parent's region with its lower side moved to the key; it is well formed and inside the parent when the key lies in the parent |
| Geometry.CutContains | KdTree.java:227-247 | a point of the parent region is in the lower cut iff its split coordinate is at most the key's, and in the upper cut iff it is at least the key's |
| Geometry.SharedPointIntersects | KdTree.java:161-163 | two rectangles that share a point intersect, so a region that misses the query rectangle holds no point of it |
| Geometry.RectDistanceIsLowerBound | KdTree.java:198-200 | the squared distance from q to a rectangle is at most the squared distance from q to any point inside it |
| Geometry.SplitDistanceIsLowerBound | KdTree.java:208-224 | the squared distance from q to a point on the far side of the split line is at least `diff * diff` |
| KdTree.InsertAt | KdTree.java:59-84 | after the recursive insert the subtree holds its old keys plus p, and it has one more node exactly when a node was created |
| KdTree.InsertAtCreated | KdTree.java:59-84 | on a valid subtree the insert creates a node iff p was absent, and returns the subtree unchanged when p is already present |
| KdTree.InsertAtValid | KdTree.java:59-84 | inserting a point of the subtree's region keeps the ordering and region invariant |
| KdTree.DistinctKeys | KdTree.java:60-70 | in a valid tree no key is stored twice: the node count equals the number of distinct keys |
| KdTree.KeysInRegion | KdTree.java:56 | every key of a valid subtree lies in the region cached at its root, which starts as the unit square |
| KdTree.ContainsAt | KdTree.java:95-115 | a positive answer of the descent names a stored key |
| KdTree.ContainsAtIffKey | KdTree.java:95-115 | on a valid tree the descent answers true iff p is one of the stored keys |
| KdTree.RangeAt | KdTree.java:156-171 | every point the range search collects is a stored key inside the query rectangle |
| KdTree.PrunedSubtreeMissesQuery | KdTree.java:161-163 | a valid subtree whose region misses the query rectangle holds no key inside it, so skipping it loses nothing |
| KdTree.RangeAtExact | KdTree.java:156-171 | on a valid tree the range search returns every stored key inside the query rectangle, each exactly once, and nothing else |
| KdTree.NearestAt | KdTree.java:193-225 | the search returns the incoming best or a key of the subtree, and never a point farther than the incoming best |
| KdTree.PrunedByRegion | KdTree.java:198-200 | when a node's region is no closer than the best so far, no key below it is closer either |
| KdTree.FarSideBound | KdTree.java:208-224 | every key of the far child is at squared distance at least `diff * diff`, so skipping it when `diff * diff` is not below the best loses nothing |
| KdTree.NearestAtSome | KdTree.java:193-225 | the search ends with a point iff it started with one or the subtree is non-empty: a subtree is only pruned once a best point exists |
| KdTree.NearestCombine | KdTree.java:202-224 | at one node, a search that is optimal for the near child's keys and then for the far child's keys is optimal for the node's key and both children together |
| KdTree.NearestAtStep | KdTree.java:202-224 | a node that is not pruned is searched optimally once the children it visits are; skipping the far child when the split line is no closer than the best loses nothing |
| KdTree.NearestAtOptimal | KdTree.java:193-225 | despite both pruning rules the point the search returns is as close to q as every key of the subtree |
| KdTree.Empty | KdTree.java:35-38 | a new tree is valid and holds no point |
| KdTree.IsEmpty | KdTree.java:41-43 | the root is absent iff the size is zero iff no point is stored |
| KdTree.Size | KdTree.java:46-48 | the size equals the number of distinct stored keys and the number of nodes |
| KdTree.Insert | KdTree.java:51-57 | insert adds exactly p; on a tree with the invariant, a present point leaves tree and size unchanged, a new one adds one to the size, and a point of the unit square keeps the invariant |
| KdTree.Contains | KdTree.java:87-93 | contains answers true iff p is stored |
| KdTree.Range | KdTree.java:146-154 | range returns exactly the stored points inside the rectangle, boundary included, each once |
| KdTree.Nearest | KdTree.java:179-191 | nearest is None iff the tree is empty, and otherwise a stored point at minimal squared distance to q |
| PointSet.SortedOccursOnce | PointSET.java:14 | the ordered set holds each of its points exactly once |
| PointSet.SortedCardinality | PointSET.java:27-29 | the number of entries of the ordered set is its number of distinct points |
| PointSet.InsertSorted | PointSET.java:37 | adding to the ordered set keeps it strictly ordered, adds exactly p, and changes nothing when p is present |
| PointSet.Empty | PointSET.java:17-19 | a new set is ordered and holds no point |
| PointSet.IsEmpty | PointSET.java:22-24 | the set is empty iff its size is zero iff it holds no point |
| PointSet.Size | PointSET.java:27-29 | the size is the number of distinct points held |
| PointSet.Insert | PointSET.java:32-38 | insert adds exactly p; a present point leaves the set unchanged and a new one adds one to the size |
| PointSet.Contains | PointSET.java:41-47 | contains answers true iff p is one of the held points |
| PointSet.RangeScan | PointSET.java:63-67 | the scan collects each point of the sequence that lies in the rectangle, as often as it occurs, and nothing else |
| PointSet.Range | PointSET.java:57-70 | range returns exactly the held points inside the rectangle, boundary included, each once |
| PointSet.NearestFrom | PointSET.java:82-93 | the rest of the scan ends on its incoming best or on a point it has yet to visit, and never on a point farther from q than the incoming best |
| PointSet.ScanStep | PointSET.java:86-90 | one loop step: a strictly closer point becomes the first nearest, otherwise the previous first nearest stays |
| PointSet.NearestFromSome | PointSET.java:82-93 | the scan ends without a point only if it never had one and saw no point |
| PointSet.NearestFromFirst | PointSET.java:85-91 | the scan ends on the first point, in iteration order, among those at minimal distance |
| PointSet.ScanFindsFirstNearest | PointSET.java:82-93 | the scan started with no best over a non-empty set returns its first nearest point |
| PointSet.Nearest | PointSET.java:73-94 | nearest is None iff the set is empty, and otherwise a held point at minimal squared distance, the first such in iteration order |
| CrossCheck.BuildTree | KdTree.java:51-57 | inserting a sequence of points one by one stores exactly the old keys plus those points, and keeps the invariant when they all lie in the unit square |
| CrossCheck.BuildSet | PointSET.java:32-38 | inserting a sequence of points one by one keeps the set ordered and holds exactly the old points plus those points |
| CrossCheck.SamePoints | KdTree.java:59-84 | the tree and the set built from the same insertions hold the same points, namely the inserted ones |
| CrossCheck.TreeSizeCountsDistinctPoints | KdTree.java:41-48 | after a sequence of unit-square insertions the tree's size equals the number of distinct inserted points, and the tree is empty iff nothing was inserted |
| CrossCheck.SetSizeCountsDistinctPoints | PointSET.java:22-38 | after any sequence of insertions the set's size equals the number of distinct inserted points, and the set is empty iff nothing was inserted |
| CrossCheck.TreeContainsIffInserted | KdTree.java:87-115 | after a sequence of unit-square insertions the tree contains p iff p was inserted at some time |
| CrossCheck.SetContainsIffInserted | PointSET.java:32-47 | after any sequence of insertions the set contains p iff p was inserted at some time |
| CrossCheck.InsertKeepsContents | KdTree.java:59-84 | after insert the tree contains every point it contained before, the new point, and nothing else |
| CrossCheck.InsertTwiceIsInsertOnce | KdTree.java:65-70 | inserting the same point twice gives the same structure as inserting it once, in both the tree and the set |
| CrossCheck.RangeAgrees | KdTree.java:156-171 | after the same insertions the pruned range search and the linear filter return the same collection |
| CrossCheck.NearestAgrees | KdTree.java:193-225 | after the same insertions both nearest searches answer None iff nothing was inserted, and otherwise return points at the same squared distance |
| Scenario.ThreePointsShape | KdTree.java:72-81 | inserting (0.5,0.5), (0.2,0.8), (0.9,0.1) puts the second point left and the third right of the root, with regions cut at x = 0.5 |
| Scenario.ThreeKeys | KdTree.java:59-84 | the three-point tree satisfies the invariant and stores exactly the three inserted points |
| Scenario.ThreePointsContains | KdTree.java:95-115 | the three-point tree contains (0.2,0.8) |
| Scenario.ThreePointsRange | KdTree.java:156-171 | on the three-point tree the range [0,0.6] x [0,0.6] holds only (0.5,0.5) |
| Scenario.ThreePointsNearest | KdTree.java:193-225 | on the three-point tree the nearest point to (0.5,0.6) is (0.5,0.5), at squared distance 0.01 |
| Scenario.NearestOnEmpty | KdTree.java:184-186 | nearest on an empty tree has no answer |
| Scenario.TieGoesRight | KdTree.java:72-81 | a point whose split coordinate equals the root's goes to the right child |

## Left out

- `draw()` in both classes: it only renders points and split lines and has no algorithmic content.
- Floating point: coordinates are exact reals, so `Double.compare`'s handling of NaN and -0.0 and rounding of the distance arithmetic are not modelled.
- `Double.POSITIVE_INFINITY` as the initial best distance: it is modelled as the absent best `None`.
- Null arguments and the `IllegalArgumentException` they raise: Dafny values are never null, so these error paths cannot arise in the model.
- The `int` size field never wraps: it is a `nat`, and its 32-bit overflow is not modelled.
- The library types `Point2D`, `RectHV`, `Bag` and `SET` are not part of this model. Their operations used here (containment, intersection, squared distances, adding, iterating) are small definitions with their usual boundary-inclusive meanings.
- The ordered set is assumed to iterate in the library's natural order of points (by y, then by x); only the "first minimum" property depends on that order.
- In-place mutation of child links: the tree is immutable and insert returns the new tree. When the point is present the returned tree is equal to the old one.
- KdTree.Insert: keeps the invariant only for points of the unit square. For a point outside it a cut can produce an inverted region, which the library rectangle constructor would reject with an exception; that exception is not modelled.
- CrossCheck.BuildTree: keeps the invariant only when every inserted point lies in the unit square, for the same reason.
