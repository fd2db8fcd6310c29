/**
 Points, axis-aligned rectangles and the split orientation of a 2-d tree.

 Coordinates are mathematical reals. The rectangle primitives (containment,
 intersection, squared distance to a point) carry their usual
 boundary-inclusive meanings.
 */
module Geometry {

  import opened Options

  /** A point of the plane; two points are equal iff both coordinates are. */
  datatype Point = Point(x: real, y: real)

  function Square(a: real): real
  {
    a * a
  }

  /** Squared Euclidean distance between two points (no square root needed). */
  function DistSq(a: Point, b: Point): real
  {
    (a.x - b.x) * (a.x - b.x) + (a.y - b.y) * (a.y - b.y)
  }

  /** An axis-aligned rectangle [xmin, xmax] x [ymin, ymax]. */
  datatype Rect = Rect(xmin: real, ymin: real, xmax: real, ymax: real)
  {
    predicate WellFormed()
    {
      xmin <= xmax && ymin <= ymax
    }

    /** Boundary-inclusive containment of a point. */
    predicate Contains(p: Point)
    {
      xmin <= p.x <= xmax && ymin <= p.y <= ymax
    }

    /** Boundary-touching rectangles intersect. */
    predicate Intersects(that: Rect)
    {
      xmax >= that.xmin && ymax >= that.ymin && that.xmax >= xmin && that.ymax >= ymin
    }

    /** Squared distance from p to the closest point of the rectangle. */
    function DistanceSquaredTo(p: Point): real
    {
      var dx := if p.x < xmin then p.x - xmin else if p.x > xmax then p.x - xmax else 0.0;
      var dy := if p.y < ymin then p.y - ymin else if p.y > ymax then p.y - ymax else 0.0;
      dx * dx + dy * dy
    }

    /** Every point of this rectangle also lies in `outer`. */
    predicate Within(outer: Rect)
    {
      outer.xmin <= xmin && xmax <= outer.xmax && outer.ymin <= ymin && ymax <= outer.ymax
    }
  }

  /** The points occurring in a sequence. */
  function Elements(xs: seq<Point>): set<Point>
  {
    set p | p in xs
  }

  lemma ElementsCons(ps: seq<Point>)
    requires ps != []
    ensures Elements(ps) == {ps[0]} + Elements(ps[1..])
  {
    assert ps == [ps[0]] + ps[1..];
  }

  /** The points of s inside the query rectangle q (boundary inclusive). */
  function Inside(s: set<Point>, q: Rect): set<Point>
  {
    set p | p in s && q.Contains(p)
  }

  /** The region of the root of every 2-d tree. */
  const UnitSquare: Rect := Rect(0.0, 0.0, 1.0, 1.0)

  /** Which coordinate a tree level splits on; it alternates by depth. */
  datatype Orientation = Vertical | Horizontal
  {
    function Flip(): Orientation
    {
      if Vertical? then Horizontal else Vertical
    }
  }

  /** The coordinate of p that orientation o compares. */
  function Coord(p: Point, o: Orientation): real
  {
    if o.Vertical? then p.x else p.y
  }

  /** Three-way comparison of two coordinates: negative, zero or positive. */
  function Compare(a: real, b: real): (c: int)
    ensures c < 0 <==> a < b
    ensures c == 0 <==> a == b
    ensures c > 0 <==> a > b
  {
    if a < b then -1 else if a > b then 1 else 0
  }

  /** The region of the lower child: the parent's region cut at the splitter. */
  function LeftRect(parent: Rect, splitter: Point, o: Orientation): (r: Rect)
    ensures parent.WellFormed() && parent.Contains(splitter) ==> r.WellFormed() && r.Within(parent)
  {
    if o.Vertical? then Rect(parent.xmin, parent.ymin, splitter.x, parent.ymax)
    else Rect(parent.xmin, parent.ymin, parent.xmax, splitter.y)
  }

  /** The region of the upper child: the complementary cut. */
  function RightRect(parent: Rect, splitter: Point, o: Orientation): (r: Rect)
    ensures parent.WellFormed() && parent.Contains(splitter) ==> r.WellFormed() && r.Within(parent)
  {
    if o.Vertical? then Rect(splitter.x, parent.ymin, parent.xmax, parent.ymax)
    else Rect(parent.xmin, splitter.y, parent.xmax, parent.ymax)
  }

  /** Whether a squared distance d beats the best candidate so far; having no
      candidate yet stands for an infinite best distance. */
  predicate Improves(d: real, q: Point, best: Option<Point>)
  {
    best.None? || d < DistSq(q, best.value)
  }

  /** c is a point of s at least as close to q as every point of s. */
  predicate IsNearest(q: Point, c: Point, s: set<Point>)
  {
    c in s && forall k | k in s :: DistSq(q, c) <= DistSq(q, k)
  }

  /** A point of the parent region lies in the left cut iff it is at or below
      the splitter on the splitting axis, and in the right cut iff it is at or
      above it. */
  lemma CutContains(parent: Rect, splitter: Point, o: Orientation, p: Point)
    requires parent.Contains(splitter)
    ensures LeftRect(parent, splitter, o).Contains(p) <==> parent.Contains(p) && Coord(p, o) <= Coord(splitter, o)
    ensures RightRect(parent, splitter, o).Contains(p) <==> parent.Contains(p) && Coord(p, o) >= Coord(splitter, o)
  {
  }

  lemma DistSqSymmetric(a: Point, b: Point)
    ensures DistSq(a, b) == DistSq(b, a)
  {
  }

  lemma SquareMonotone(a: real, b: real)
    requires 0.0 <= a <= b
    ensures a * a <= b * b
  {
    assert a * a <= a * b;
    assert a * b <= b * b;
  }

  /** A rectangle that shares a point with another intersects it. */
  lemma SharedPointIntersects(a: Rect, b: Rect, p: Point)
    requires a.Contains(p) && b.Contains(p)
    ensures a.Intersects(b)
  {
  }

  /** The rectangle distance is a lower bound for the distance to every
      point inside the rectangle; this is what makes pruning by region sound. */
  lemma {:induction false} RectDistanceIsLowerBound(r: Rect, p: Point, q: Point)
    requires r.Contains(p)
    ensures r.DistanceSquaredTo(q) <= DistSq(q, p)
  {
    var dx := if q.x < r.xmin then q.x - r.xmin else if q.x > r.xmax then q.x - r.xmax else 0.0;
    var dy := if q.y < r.ymin then q.y - r.ymin else if q.y > r.ymax then q.y - r.ymax else 0.0;
    AbsSquareBound(dx, q.x - p.x);
    AbsSquareBound(dy, q.y - p.y);
  }

  /** |a| <= |b| gives a*a <= b*b. */
  lemma AbsSquareBound(a: real, b: real)
    requires (a >= 0.0 && b >= a) || (a < 0.0 && b <= a) || a == 0.0
    ensures a * a <= b * b
  {
    if a == 0.0 {
      if b >= 0.0 { SquareMonotone(0.0, b); } else { SquareMonotone(0.0, -b); }
    } else if a > 0.0 {
      SquareMonotone(a, b);
    } else {
      SquareMonotone(-a, -b);
    }
  }

  /** The squared distance to any point on the far side of a split line is at
      least the squared distance to the line itself. */
  lemma {:induction false} SplitDistanceIsLowerBound(q: Point, splitter: Point, p: Point, o: Orientation)
    requires Coord(q, o) < Coord(splitter, o) ==> Coord(p, o) >= Coord(splitter, o)
    requires Coord(q, o) >= Coord(splitter, o) ==> Coord(p, o) < Coord(splitter, o)
    ensures Square(Coord(q, o) - Coord(splitter, o)) <= DistSq(q, p)
  {
    AbsSquareBound(Coord(q, o) - Coord(splitter, o), Coord(q, o) - Coord(p, o));
    AbsSquareBound(0.0, Coord(q, o.Flip()) - Coord(p, o.Flip()));
  }
}
