/**
 The brute-force baseline: an ordered, duplicate-free set of points that
 answers every query by scanning all of its points.

 The set iterates in the natural order of points (by y, then by x), so it is
 modelled as a strictly increasing sequence; "first in iteration order" is
 then "first in the sequence".
 */
module PointSet {

  import opened Options
  import opened Geometry

  /** The natural order of points: by y-coordinate, ties broken by x. */
  predicate Less(a: Point, b: Point)
  {
    a.y < b.y || (a.y == b.y && a.x < b.x)
  }

  predicate Sorted(xs: seq<Point>)
  {
    forall i, j | 0 <= i < j < |xs| :: Less(xs[i], xs[j])
  }

  datatype PointSet = PointSet(items: seq<Point>)

  predicate Inv(s: PointSet)
  {
    Sorted(s.items)
  }

  /** A strictly increasing sequence holds each of its points exactly once. */
  lemma {:induction false} SortedOccursOnce(xs: seq<Point>, p: Point)
    requires Sorted(xs)
    ensures multiset(xs)[p] == if p in xs then 1 else 0
  {
    if xs != [] {
      SortedOccursOnce(xs[1..], p);
      assert xs == [xs[0]] + xs[1..];
      assert xs[0] !in xs[1..];
    }
  }

  /** The size of a strictly increasing sequence is its number of distinct points. */
  lemma {:induction false} SortedCardinality(xs: seq<Point>)
    requires Sorted(xs)
    ensures |Elements(xs)| == |xs|
  {
    if xs != [] {
      SortedCardinality(xs[1..]);
      assert Elements(xs) == {xs[0]} + Elements(xs[1..]);
      assert xs[0] !in Elements(xs[1..]);
    }
  }

  /** Adds p at its place in the order, unless it is already present. */
  function InsertSorted(xs: seq<Point>, p: Point): (r: seq<Point>)
    requires Sorted(xs)
    ensures Sorted(r)
    ensures Elements(r) == Elements(xs) + {p}
    ensures p in xs ==> r == xs
  {
    if xs == [] then [p]
    else if xs[0] == p then xs
    else if Less(p, xs[0]) then [p] + xs
    else
      var rest := InsertSorted(xs[1..], p);
      assert forall i | 0 <= i < |rest| :: rest[i] in Elements(rest);
      assert xs == [xs[0]] + xs[1..];
      [xs[0]] + rest
  }

  /** The empty set. */
  function Empty(): (s: PointSet)
    ensures Inv(s) && Elements(s.items) == {}
  {
    PointSet([])
  }

  function Size(s: PointSet): (n: nat)
    requires Inv(s)
    ensures n == |Elements(s.items)|
  {
    SortedCardinality(s.items);
    |s.items|
  }

  function IsEmpty(s: PointSet): (b: bool)
    requires Inv(s)
    ensures b <==> Size(s) == 0
    ensures b <==> Elements(s.items) == {}
  {
    assert s.items != [] ==> s.items[0] in Elements(s.items);
    |s.items| == 0
  }

  /** Adds p; a point already present leaves the set unchanged. */
  function Insert(s: PointSet, p: Point): (r: PointSet)
    requires Inv(s)
    ensures Inv(r)
    ensures Elements(r.items) == Elements(s.items) + {p}
    ensures p in s.items ==> r == s
    ensures p !in s.items ==> Size(r) == Size(s) + 1
  {
    PointSet(InsertSorted(s.items, p))
  }

  function Contains(s: PointSet, p: Point): (b: bool)
    requires Inv(s)
    ensures b <==> p in Elements(s.items)
  {
    p in s.items
  }

  /** The hits of the scan over xs: every point of xs inside q, as often as it occurs. */
  function RangeScan(xs: seq<Point>, q: Rect): (r: multiset<Point>)
    ensures forall p :: r[p] == if q.Contains(p) then multiset(xs)[p] else 0
  {
    if xs == [] then multiset{}
    else
      assert xs == [xs[0]] + xs[1..];
      (if q.Contains(xs[0]) then multiset{xs[0]} else multiset{}) + RangeScan(xs[1..], q)
  }

  /** All points inside q (boundary inclusive), as an unordered collection. */
  function Range(s: PointSet, q: Rect): (r: multiset<Point>)
    requires Inv(s)
    ensures r == multiset(Inside(Elements(s.items), q))
  {
    var r := RangeScan(s.items, q);
    forall p ensures r[p] == multiset(Inside(Elements(s.items), q))[p] {
      SortedOccursOnce(s.items, p);
    }
    r
  }

  /** The scan for a nearest point from position i on, with `best` the best
      point among xs[..i] (None standing for an infinite distance). A point
      replaces the best only when strictly closer. */
  function NearestFrom(xs: seq<Point>, q: Point, i: nat, best: Option<Point>): (r: Option<Point>)
    requires i <= |xs|
    ensures r == best || (r.Some? && r.value in xs[i..])
    ensures best.Some? ==> r.Some? && DistSq(q, r.value) <= DistSq(q, best.value)
    decreases |xs| - i
  {
    if i == |xs| then best
    else
      var d := DistSq(xs[i], q);
      DistSqSymmetric(xs[i], q);
      var r := NearestFrom(xs, q, i + 1, if Improves(d, q, best) then Some(xs[i]) else best);
      assert xs[i..] == [xs[i]] + xs[i + 1..];
      r
  }

  /** xs[k] is the first point among xs[..n] that is nearest to q: it is as
      close as every point there, and strictly closer than each point before it. */
  predicate FirstNearestUpTo(xs: seq<Point>, q: Point, n: nat, k: int)
    requires n <= |xs|
  {
    && 0 <= k < n
    && (forall j | 0 <= j < n :: DistSq(q, xs[k]) <= DistSq(q, xs[j]))
    && (forall j | 0 <= j < k :: DistSq(q, xs[k]) < DistSq(q, xs[j]))
  }

  /** One step of the scan: a strictly closer point becomes the first
      nearest, otherwise the previous one stays first nearest. */
  lemma ScanStep(xs: seq<Point>, q: Point, i: nat, k: int)
    requires i < |xs| && FirstNearestUpTo(xs, q, i, k)
    ensures DistSq(q, xs[i]) < DistSq(q, xs[k]) ==> FirstNearestUpTo(xs, q, i + 1, i)
    ensures DistSq(q, xs[i]) >= DistSq(q, xs[k]) ==> FirstNearestUpTo(xs, q, i + 1, k)
  {
  }

  /** The scan never ends without a point once it has seen one. */
  lemma {:induction false} NearestFromSome(xs: seq<Point>, q: Point, i: nat, best: Option<Point>)
    requires i <= |xs|
    ensures NearestFrom(xs, q, i, best).None? <==> best.None? && i == |xs|
    decreases |xs| - i
  {
    if i < |xs| {
      var next := if Improves(DistSq(xs[i], q), q, best) then Some(xs[i]) else best;
      NearestFromSome(xs, q, i + 1, next);
    }
  }

  /** The scan keeps the first nearest point: a strict `<` never replaces the
      best by an equally distant later point. Given the index k of the best
      point of xs[..i], it yields the index of the result. */
  lemma {:induction false} NearestFromFirst(xs: seq<Point>, q: Point, i: nat, best: Option<Point>, k: int)
    returns (m: int)
    requires i <= |xs| && best.Some?
    requires FirstNearestUpTo(xs, q, i, k) && xs[k] == best.value
    ensures NearestFrom(xs, q, i, best).Some?
    ensures FirstNearestUpTo(xs, q, |xs|, m) && xs[m] == NearestFrom(xs, q, i, best).value
    decreases |xs| - i
  {
    NearestFromSome(xs, q, i, best);
    if i == |xs| {
      m := k;
    } else {
      DistSqSymmetric(xs[i], q);
      ScanStep(xs, q, i, k);
      if Improves(DistSq(xs[i], q), q, best) {
        m := NearestFromFirst(xs, q, i + 1, Some(xs[i]), i);
      } else {
        m := NearestFromFirst(xs, q, i + 1, best, k);
      }
    }
  }

  /** The whole scan from the start returns the first nearest point of xs. */
  lemma ScanFindsFirstNearest(xs: seq<Point>, q: Point)
    requires |xs| > 0
    ensures NearestFrom(xs, q, 0, None).Some?
    ensures exists m :: FirstNearestUpTo(xs, q, |xs|, m) && xs[m] == NearestFrom(xs, q, 0, None).value
  {
    assert FirstNearestUpTo(xs, q, 1, 0);
    var m := NearestFromFirst(xs, q, 1, Some(xs[0]), 0);
  }

  /** The first nearest point is in particular a nearest point of the set. */
  lemma FirstNearestIsNearest(xs: seq<Point>, q: Point, k: int)
    requires FirstNearestUpTo(xs, q, |xs|, k)
    ensures IsNearest(q, xs[k], Elements(xs))
  {
    forall p | p in Elements(xs) ensures DistSq(q, xs[k]) <= DistSq(q, p) {
      var j :| 0 <= j < |xs| && xs[j] == p;
    }
  }

  /** A nearest point to q, or None when the set is empty; among equally near
      points the first in iteration order is returned. */
  function Nearest(s: PointSet, q: Point): (r: Option<Point>)
    requires Inv(s)
    ensures r.None? <==> Elements(s.items) == {}
    ensures r.Some? ==> IsNearest(q, r.value, Elements(s.items))
    ensures r.Some? ==> exists k :: FirstNearestUpTo(s.items, q, |s.items|, k) && s.items[k] == r.value
  {
    if IsEmpty(s) then None
    else
      ScanFindsFirstNearest(s.items, q);
      var r := NearestFrom(s.items, q, 0, None);
      var k :| FirstNearestUpTo(s.items, q, |s.items|, k) && s.items[k] == r.value;
      FirstNearestIsNearest(s.items, q, k);
      r
  }
}
