/**
 Insertion histories, and the agreement of the 2-d tree with the brute-force
 set: after the same insertions both hold the same points, report the same
 size, answer contains alike, return the same range hits and nearest points
 at the same distance.
 */
module CrossCheck {

  import opened Options
  import opened Geometry
  import KdTree
  import PointSet

  predicate InUnitSquare(ps: seq<Point>)
  {
    forall i | 0 <= i < |ps| :: UnitSquare.Contains(ps[i])
  }

  /** The tree after inserting the points of ps one after the other. */
  function BuildTree(t: KdTree.Index, ps: seq<Point>): (r: KdTree.Index)
    ensures KdTree.Keys(r.root) == KdTree.Keys(t.root) + Elements(ps)
    ensures KdTree.Inv(t) && InUnitSquare(ps) ==> KdTree.Inv(r)
    decreases |ps|
  {
    if ps == [] then t
    else
      ElementsCons(ps);
      BuildTree(KdTree.Insert(t, ps[0]), ps[1..])
  }

  /** The brute-force set after inserting the points of ps one after the other. */
  function BuildSet(s: PointSet.PointSet, ps: seq<Point>): (r: PointSet.PointSet)
    requires PointSet.Inv(s)
    ensures PointSet.Inv(r)
    ensures Elements(r.items) == Elements(s.items) + Elements(ps)
    decreases |ps|
  {
    if ps == [] then s
    else
      var s' := PointSet.Insert(s, ps[0]);
      ElementsCons(ps);
      BuildSet(s', ps[1..])
  }

  /** The tree and the set built from ps hold the same points, namely those of ps. */
  lemma SamePoints(ps: seq<Point>)
    ensures KdTree.Keys(BuildTree(KdTree.Empty(), ps).root) == Elements(ps)
    ensures Elements(BuildSet(PointSet.Empty(), ps).items) == Elements(ps)
  {
  }

  /** The tree's size counts the distinct inserted points, and the tree is
      empty exactly when nothing was inserted. */
  lemma TreeSizeCountsDistinctPoints(ps: seq<Point>)
    requires InUnitSquare(ps)
    ensures KdTree.Size(BuildTree(KdTree.Empty(), ps)) == |Elements(ps)|
    ensures KdTree.IsEmpty(BuildTree(KdTree.Empty(), ps)) <==> ps == []
  {
    SamePoints(ps);
    if ps != [] {
      assert ps[0] in Elements(ps);
    }
  }

  /** The set's size counts the distinct inserted points, whatever they are,
      and the set is empty exactly when nothing was inserted. */
  lemma SetSizeCountsDistinctPoints(ps: seq<Point>)
    ensures PointSet.Size(BuildSet(PointSet.Empty(), ps)) == |Elements(ps)|
    ensures PointSet.IsEmpty(BuildSet(PointSet.Empty(), ps)) <==> ps == []
  {
    SamePoints(ps);
    if ps != [] {
      assert ps[0] in Elements(ps);
    }
  }

  /** The tree contains a point exactly when it was inserted at some time. */
  lemma TreeContainsIffInserted(ps: seq<Point>, p: Point)
    requires InUnitSquare(ps)
    ensures KdTree.Contains(BuildTree(KdTree.Empty(), ps), p) <==> p in ps
  {
    SamePoints(ps);
  }

  /** The set contains a point exactly when it was inserted at some time. */
  lemma SetContainsIffInserted(ps: seq<Point>, p: Point)
    ensures PointSet.Contains(BuildSet(PointSet.Empty(), ps), p) <==> p in ps
  {
    SamePoints(ps);
  }

  /** Inserting keeps every point contained before and adds exactly the new one. */
  lemma InsertKeepsContents(t: KdTree.Index, p: Point, x: Point)
    requires KdTree.Inv(t) && UnitSquare.Contains(p)
    ensures KdTree.Contains(KdTree.Insert(t, p), x) <==> KdTree.Contains(t, x) || x == p
  {
  }

  /** Inserting the same point twice is the same as inserting it once. */
  lemma InsertTwiceIsInsertOnce(t: KdTree.Index, s: PointSet.PointSet, p: Point)
    requires KdTree.Inv(t) && PointSet.Inv(s) && UnitSquare.Contains(p)
    ensures KdTree.Insert(KdTree.Insert(t, p), p) == KdTree.Insert(t, p)
    ensures PointSet.Insert(PointSet.Insert(s, p), p) == PointSet.Insert(s, p)
  {
    assert p in KdTree.Keys(KdTree.Insert(t, p).root);
    assert p in Elements(PointSet.Insert(s, p).items);
  }

  /** Range queries agree as collections, boundary cases included. */
  lemma RangeAgrees(ps: seq<Point>, q: Rect)
    requires InUnitSquare(ps)
    ensures KdTree.Range(BuildTree(KdTree.Empty(), ps), q) == PointSet.Range(BuildSet(PointSet.Empty(), ps), q)
  {
    SamePoints(ps);
  }

  /** Nearest queries agree: both are empty-handed on nothing inserted, and
      otherwise both return points at the same (minimal) distance. */
  lemma NearestAgrees(ps: seq<Point>, q: Point)
    requires InUnitSquare(ps)
    ensures var a := KdTree.Nearest(BuildTree(KdTree.Empty(), ps), q);
            var b := PointSet.Nearest(BuildSet(PointSet.Empty(), ps), q);
            (a.None? <==> ps == []) && (b.None? <==> ps == [])
            && (a.Some? && b.Some? ==> DistSq(q, a.value) == DistSq(q, b.value))
  {
    SamePoints(ps);
    if ps != [] {
      assert ps[0] in Elements(ps);
    }
  }
}
