/**
 Worked examples on small trees: the three-point scenario, and the routing
 of a point that ties the root on the splitting axis.
 */
module Scenario {

  import opened Options
  import opened Geometry
  import opened KdTree

  const A: Point := Point(0.5, 0.5)
  const B: Point := Point(0.2, 0.8)
  const C: Point := Point(0.9, 0.1)

  /** The tree built by inserting (0.5,0.5), (0.2,0.8), (0.9,0.1) in that order. */
  const Three: Index := Index(Node(A, UnitSquare,
                                     Node(B, Rect(0.0, 0.0, 0.5, 1.0), Nil, Nil),
                                     Node(C, Rect(0.5, 0.0, 1.0, 1.0), Nil, Nil)), 3)

  /** The second point goes left of the root, the third right, and both
      regions are the unit square cut at x = 0.5. */
  lemma ThreePointsShape()
    ensures Insert(Insert(Insert(Empty(), A), B), C) == Three
    ensures Inv(Three)
  {
    var t1 := Insert(Empty(), A);
    assert t1 == Index(Node(A, UnitSquare, Nil, Nil), 1);
    var t2 := Insert(t1, B);
    assert t2 == Index(Node(A, UnitSquare, Node(B, Rect(0.0, 0.0, 0.5, 1.0), Nil, Nil), Nil), 2);
  }

  /** The three-point tree stores exactly the three inserted points. */
  lemma ThreeKeys()
    ensures Inv(Three) && Keys(Three.root) == {A, B, C}
  {
    ThreePointsShape();
  }

  /** contains finds the second point. */
  lemma ThreePointsContains()
    ensures Inv(Three) && Contains(Three, B)
  {
    ThreeKeys();
  }

  /** Only the root lies in [0, 0.6] x [0, 0.6]. */
  lemma ThreePointsRange()
    ensures Inv(Three) && Range(Three, Rect(0.0, 0.0, 0.6, 0.6)) == multiset{A}
  {
    ThreeKeys();
    var q := Rect(0.0, 0.0, 0.6, 0.6);
    assert q.Contains(A) && !q.Contains(B) && !q.Contains(C);
    assert Inside({A, B, C}, q) == {A};
  }

  /** The root is the nearest point to (0.5, 0.6), at squared distance 0.01. */
  lemma ThreePointsNearest()
    ensures Inv(Three) && Nearest(Three, Point(0.5, 0.6)) == Some(A)
    ensures DistSq(Point(0.5, 0.6), A) == 0.01
  {
    ThreeKeys();
    var q := Point(0.5, 0.6);
    assert DistSq(q, A) == 0.01 && DistSq(q, B) == 0.13 && DistSq(q, C) == 0.41;
  }

  /** The nearest query on an empty tree has no answer. */
  lemma NearestOnEmpty(q: Point)
    ensures Nearest(Empty(), q) == None
  {
  }

  /** A point whose x equals the root's x goes to the right subtree, not the
      left: only a strictly smaller coordinate routes left. */
  lemma TieGoesRight()
    ensures Insert(Insert(Empty(), A), Point(0.5, 0.2)).root
         == Node(A, UnitSquare, Nil, Node(Point(0.5, 0.2), Rect(0.5, 0.0, 1.0, 1.0), Nil, Nil))
  {
    var t1 := Insert(Empty(), A);
    assert t1.root == Node(A, UnitSquare, Nil, Nil);
  }
}
