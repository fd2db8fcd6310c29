/**
 The 2-d tree: a binary search tree whose levels alternately compare the x
 and the y coordinate, each node caching the rectangle of the plane its
 subtree is responsible for. The root's region is the unit square; a child's
 region is its parent's region cut at the parent's key.

 Routing convention of the tree: a point goes to the left (lower) child only
 when its coordinate on the splitting axis is strictly smaller than the
 key's; an equal coordinate goes to the right.
 */
module KdTree {

  import opened Options
  import opened Geometry

  datatype Tree = Nil | Node(key: Point, rect: Rect, left: Tree, right: Tree)

  /** The points stored in a subtree. */
  function Keys(t: Tree): set<Point>
  {
    match t
    case Nil => {}
    case Node(k, _, l, r) => {k} + Keys(l) + Keys(r)
  }

  /** The number of nodes of a subtree. */
  function NodeCount(t: Tree): nat
  {
    match t
    case Nil => 0
    case Node(_, _, l, r) => 1 + NodeCount(l) + NodeCount(r)
  }

  /** The representation invariant of a subtree that splits on `o` and was
      assigned `region` by its parent:
      - the node caches exactly its region, which is well formed and holds the key;
      - left keys are strictly below the key on the splitting axis, right keys
        are at or above it, and the key itself is not repeated on the right;
      - both children satisfy the invariant for the flipped orientation and
        the region cut at the key. */
  predicate Valid(t: Tree, o: Orientation, region: Rect)
  {
    match t
    case Nil => true
    case Node(k, rect, l, r) =>
      && rect == region
      && region.WellFormed()
      && region.Contains(k)
      && (forall p | p in Keys(l) :: Coord(p, o) < Coord(k, o))
      && (forall p | p in Keys(r) :: Coord(p, o) >= Coord(k, o))
      && k !in Keys(r)
      && Valid(l, o.Flip(), LeftRect(region, k, o))
      && Valid(r, o.Flip(), RightRect(region, k, o))
  }

  /** Result of the recursive insert: the new subtree, and whether a node was
      created (the only place where the size grows). */
  datatype Inserted = Inserted(tree: Tree, created: bool)

  /** Recursive insert into the subtree h, which splits on o and owns `region`. */
  function InsertAt(h: Tree, p: Point, o: Orientation, region: Rect): (r: Inserted)
    ensures Keys(r.tree) == Keys(h) + {p}
    ensures NodeCount(r.tree) == NodeCount(h) + (if r.created then 1 else 0)
  {
    match h
    case Nil => Inserted(Node(p, region, Nil, Nil), true)
    case Node(k, rect, l, rt) =>
      var cmpX := Compare(k.x, p.x);
      var cmpY := Compare(k.y, p.y);
      if cmpX == 0 && cmpY == 0 then Inserted(h, false)
      else
        var cmp := if o.Vertical? then cmpX else cmpY;
        if cmp > 0 then
          var sub := InsertAt(l, p, o.Flip(), LeftRect(rect, k, o));
          Inserted(Node(k, rect, sub.tree, rt), sub.created)
        else
          var sub := InsertAt(rt, p, o.Flip(), RightRect(rect, k, o));
          Inserted(Node(k, rect, l, sub.tree), sub.created)
  }

  /** Exact-match descent along the same route insert takes. */
  function ContainsAt(h: Tree, p: Point, o: Orientation): (b: bool)
    ensures b ==> p in Keys(h)
  {
    match h
    case Nil => false
    case Node(k, _, l, r) =>
      var cmpX := Compare(k.x, p.x);
      var cmpY := Compare(k.y, p.y);
      if cmpX == 0 && cmpY == 0 then true
      else
        var cmp := if o.Horizontal? then cmpY else cmpX;
        if cmp > 0 then ContainsAt(l, p, o.Flip()) else ContainsAt(r, p, o.Flip())
  }

  /** Range search that skips every subtree whose region misses q. The
      collected points form an unordered bag, modelled as a multiset. */
  function RangeAt(h: Tree, q: Rect): (r: multiset<Point>)
    ensures forall p | p in r :: p in Keys(h) && q.Contains(p)
  {
    match h
    case Nil => multiset{}
    case Node(k, rect, l, rt) =>
      if !q.Intersects(rect) then multiset{}
      else
        (if q.Contains(k) then multiset{k} else multiset{}) + RangeAt(l, q) + RangeAt(rt, q)
  }

  /** Nearest-neighbour search from node h with `best` the best point found so
      far (None while there is none, standing for an infinite distance). A
      subtree is skipped when its region is no closer than the best; the child
      on q's side of the split is searched first, and the other child only
      when the split line is strictly closer than the best found so far. */
  function NearestAt(h: Tree, q: Point, best: Option<Point>, o: Orientation): (r: Option<Point>)
    ensures r == best || (r.Some? && r.value in Keys(h))
    ensures best.Some? ==> r.Some? && DistSq(q, r.value) <= DistSq(q, best.value)
  {
    match h
    case Nil => best
    case Node(k, rect, l, rt) =>
      if !Improves(rect.DistanceSquaredTo(q), q, best) then best
      else
        var best1 := if Improves(DistSq(q, k), q, best) then Some(k) else best;
        var diff := Coord(q, o) - Coord(k, o);
        var near := if diff < 0.0 then l else rt;
        var far := if diff < 0.0 then rt else l;
        var best2 := NearestAt(near, q, best1, o.Flip());
        if Improves(Square(diff), q, best2) then NearestAt(far, q, best2, o.Flip()) else best2
  }

  /** Every key of a valid subtree lies in the subtree's region. */
  lemma {:induction false} KeysInRegion(t: Tree, o: Orientation, region: Rect)
    requires Valid(t, o, region)
    ensures forall p | p in Keys(t) :: region.Contains(p)
  {
    match t
    case Nil =>
    case Node(k, _, l, r) =>
      KeysInRegion(l, o.Flip(), LeftRect(region, k, o));
      KeysInRegion(r, o.Flip(), RightRect(region, k, o));
  }

  /** No key is stored twice: the node count equals the number of distinct keys. */
  lemma {:induction false} DistinctKeys(t: Tree, o: Orientation, region: Rect)
    requires Valid(t, o, region)
    ensures NodeCount(t) == |Keys(t)|
  {
    match t
    case Nil =>
    case Node(k, _, l, r) =>
      DistinctKeys(l, o.Flip(), LeftRect(region, k, o));
      DistinctKeys(r, o.Flip(), RightRect(region, k, o));
      assert Keys(l) * Keys(r) == {} by {
        forall p | p in Keys(l) ensures p !in Keys(r) {
        }
      }
      assert k !in Keys(l);
      assert {k} * (Keys(l) + Keys(r)) == {};
      assert |Keys(l) + Keys(r)| == |Keys(l)| + |Keys(r)|;
  }

  /** Insert creates a node exactly when the point is new, and leaves the
      subtree untouched when the point is already there. */
  lemma {:induction false} InsertAtCreated(h: Tree, p: Point, o: Orientation, region: Rect)
    requires Valid(h, o, region)
    ensures InsertAt(h, p, o, region).created <==> p !in Keys(h)
    ensures p in Keys(h) ==> InsertAt(h, p, o, region) == Inserted(h, false)
  {
    match h
    case Nil =>
    case Node(k, rect, l, rt) =>
      if k != p {
        if Coord(p, o) < Coord(k, o) {
          InsertAtCreated(l, p, o.Flip(), LeftRect(region, k, o));
          assert p !in Keys(rt);
        } else {
          InsertAtCreated(rt, p, o.Flip(), RightRect(region, k, o));
          assert p !in Keys(l);
        }
      }
  }

  /** Insert of a point of the region keeps the ordering and region invariant. */
  lemma {:induction false} InsertAtValid(h: Tree, p: Point, o: Orientation, region: Rect)
    requires Valid(h, o, region) && region.WellFormed() && region.Contains(p)
    ensures Valid(InsertAt(h, p, o, region).tree, o, region)
  {
    match h
    case Nil =>
    case Node(k, rect, l, rt) =>
      if k != p {
        CutContains(region, k, o, p);
        if Coord(p, o) < Coord(k, o) {
          InsertAtValid(l, p, o.Flip(), LeftRect(region, k, o));
        } else {
          InsertAtValid(rt, p, o.Flip(), RightRect(region, k, o));
        }
      }
  }

  /** contains answers exactly membership among the stored keys. */
  lemma {:induction false} ContainsAtIffKey(h: Tree, p: Point, o: Orientation, region: Rect)
    requires Valid(h, o, region)
    ensures ContainsAt(h, p, o) <==> p in Keys(h)
  {
    match h
    case Nil =>
    case Node(k, _, l, r) =>
      if k != p {
        if Coord(p, o) < Coord(k, o) {
          ContainsAtIffKey(l, p, o.Flip(), LeftRect(region, k, o));
        } else {
          ContainsAtIffKey(r, p, o.Flip(), RightRect(region, k, o));
        }
      }
  }

  /** A valid subtree whose region misses q holds no key inside q. */
  lemma PrunedSubtreeMissesQuery(h: Tree, q: Rect, o: Orientation, region: Rect)
    requires Valid(h, o, region) && h.Node? && !q.Intersects(h.rect)
    ensures Inside(Keys(h), q) == {}
  {
    KeysInRegion(h, o, region);
    forall p | p in Keys(h) ensures !q.Contains(p) {
      if q.Contains(p) {
        SharedPointIntersects(q, h.rect, p);
      }
    }
  }

  /** The keys of a valid node: its own key and those of its two children,
      pairwise disjoint. */
  lemma KeysDisjoint(h: Tree, o: Orientation, region: Rect)
    requires Valid(h, o, region) && h.Node?
    ensures h.key !in Keys(h.left) && h.key !in Keys(h.right)
    ensures Keys(h.left) !! Keys(h.right)
  {
    forall p | p in Keys(h.left) ensures p !in Keys(h.right) {
    }
  }

  /** Filtering a disjoint union: the multiset of hits splits into the hits of
      each part. */
  lemma InsideOfNode(k: Point, a: set<Point>, b: set<Point>, q: Rect)
    requires k !in a && k !in b && a !! b
    ensures multiset(Inside({k} + a + b, q))
         == (if q.Contains(k) then multiset{k} else multiset{}) + multiset(Inside(a, q)) + multiset(Inside(b, q))
  {
  }

  /** Pruning by region loses no answer: the range search returns every key
      inside q, each exactly once. */
  lemma {:induction false} RangeAtExact(h: Tree, q: Rect, o: Orientation, region: Rect)
    requires Valid(h, o, region)
    ensures RangeAt(h, q) == multiset(Inside(Keys(h), q))
  {
    match h
    case Nil =>
    case Node(k, rect, l, rt) =>
      if !q.Intersects(rect) {
        PrunedSubtreeMissesQuery(h, q, o, region);
      } else {
        RangeAtExact(l, q, o.Flip(), LeftRect(region, k, o));
        RangeAtExact(rt, q, o.Flip(), RightRect(region, k, o));
        KeysDisjoint(h, o, region);
        InsideOfNode(k, Keys(l), Keys(rt), q);
      }
  }

  /** Pruning by region is sound: when the region of a valid node is no
      closer to q than the best point so far, no key below it is closer. */
  lemma PrunedByRegion(h: Tree, q: Point, best: Option<Point>, o: Orientation, region: Rect)
    requires Valid(h, o, region) && h.Node?
    requires !Improves(h.rect.DistanceSquaredTo(q), q, best)
    ensures best.Some?
    ensures forall p | p in Keys(h) :: DistSq(q, best.value) <= DistSq(q, p)
  {
    KeysInRegion(h, o, region);
    forall p | p in Keys(h) ensures DistSq(q, best.value) <= DistSq(q, p) {
      RectDistanceIsLowerBound(h.rect, p, q);
    }
  }

  /** Pruning the far child is sound: every key on the far side of the split
      line is at least as far from q as the line itself. */
  lemma FarSideBound(q: Point, k: Point, o: Orientation, s: set<Point>)
    requires Coord(q, o) < Coord(k, o) ==> forall p | p in s :: Coord(p, o) >= Coord(k, o)
    requires Coord(q, o) >= Coord(k, o) ==> forall p | p in s :: Coord(p, o) < Coord(k, o)
    ensures forall p | p in s :: Square(Coord(q, o) - Coord(k, o)) <= DistSq(q, p)
  {
    forall p | p in s ensures Square(Coord(q, o) - Coord(k, o)) <= DistSq(q, p) {
      SplitDistanceIsLowerBound(q, k, p, o);
    }
  }

  /** r is a point at least as close to q as every point of s (vacuous for None). */
  predicate AsCloseAsAll(q: Point, r: Option<Point>, s: set<Point>)
  {
    r.Some? ==> forall p | p in s :: DistSq(q, r.value) <= DistSq(q, p)
  }

  /** The search ends without a point only if it started without one and
      the subtree is empty; pruning needs a best point, so it never loses the
      only candidates. */
  lemma {:induction false} NearestAtSome(h: Tree, q: Point, best: Option<Point>, o: Orientation)
    ensures NearestAt(h, q, best, o).Some? <==> best.Some? || Keys(h) != {}
  {
    match h
    case Nil =>
    case Node(k, rect, l, rt) =>
      if Improves(rect.DistanceSquaredTo(q), q, best) {
        var best1 := if Improves(DistSq(q, k), q, best) then Some(k) else best;
        var diff := Coord(q, o) - Coord(k, o);
        var near := if diff < 0.0 then l else rt;
        var far := if diff < 0.0 then rt else l;
        NearestAtSome(near, q, best1, o.Flip());
        NearestAtSome(far, q, NearestAt(near, q, best1, o.Flip()), o.Flip());
      }
  }

  /** One node of the nearest search: when the near child's search is
      optimal for its keys and the rest of the search is optimal for the far
      child's keys, the result is optimal for the whole subtree. */
  lemma NearestCombine(q: Point, k: Point, best: Option<Point>, best1: Option<Point>, best2: Option<Point>,
                       r: Option<Point>, nearKeys: set<Point>, farKeys: set<Point>)
    requires best1 == if Improves(DistSq(q, k), q, best) then Some(k) else best
    requires best1.Some? ==> best2.Some? && DistSq(q, best2.value) <= DistSq(q, best1.value)
    requires best2.Some? ==> r.Some? && DistSq(q, r.value) <= DistSq(q, best2.value)
    requires AsCloseAsAll(q, best2, nearKeys) && AsCloseAsAll(q, r, farKeys)
    ensures AsCloseAsAll(q, r, {k} + nearKeys + farKeys)
  {
  }

  /** The search at a node that is not pruned: candidate, near child, then
      the far child unless the split line is too far. */
  lemma NearestAtNode(h: Tree, q: Point, best: Option<Point>, o: Orientation)
    requires h.Node? && Improves(h.rect.DistanceSquaredTo(q), q, best)
    ensures var best1 := if Improves(DistSq(q, h.key), q, best) then Some(h.key) else best;
            var diff := Coord(q, o) - Coord(h.key, o);
            var best2 := NearestAt(if diff < 0.0 then h.left else h.right, q, best1, o.Flip());
            NearestAt(h, q, best, o)
            == if Improves(Square(diff), q, best2) then NearestAt(if diff < 0.0 then h.right else h.left, q, best2, o.Flip()) else best2
  {
  }

  /** The search at a node that is not pruned is optimal for the whole
      subtree once the searches of the children it visits are optimal for
      their keys: the far child it skips holds no key closer than the split
      line, and the split line is no closer than the best found. */
  lemma NearestAtStep(h: Tree, q: Point, best: Option<Point>, o: Orientation, region: Rect,
                      best1: Option<Point>, best2: Option<Point>)
    requires Valid(h, o, region) && h.Node? && Improves(h.rect.DistanceSquaredTo(q), q, best)
    requires best1 == if Improves(DistSq(q, h.key), q, best) then Some(h.key) else best
    requires var near := if Coord(q, o) < Coord(h.key, o) then h.left else h.right;
             best2 == NearestAt(near, q, best1, o.Flip()) && AsCloseAsAll(q, best2, Keys(near))
    requires var far := if Coord(q, o) < Coord(h.key, o) then h.right else h.left;
             Improves(Square(Coord(q, o) - Coord(h.key, o)), q, best2) ==>
               AsCloseAsAll(q, NearestAt(far, q, best2, o.Flip()), Keys(far))
    ensures AsCloseAsAll(q, NearestAt(h, q, best, o), Keys(h))
  {
    var k := h.key;
    var diff := Coord(q, o) - Coord(k, o);
    var near := if diff < 0.0 then h.left else h.right;
    var far := if diff < 0.0 then h.right else h.left;
    var r := if Improves(Square(diff), q, best2) then NearestAt(far, q, best2, o.Flip()) else best2;
    if !Improves(Square(diff), q, best2) {
      FarSideBound(q, k, o, Keys(far));
    }
    NearestCombine(q, k, best, best1, best2, r, Keys(near), Keys(far));
    assert Keys(h) == {k} + Keys(near) + Keys(far);
    NearestAtNode(h, q, best, o);
  }

  /** The nearest-neighbour search is optimal despite both pruning rules:
      the point it returns is at least as close to q as every key of the
      subtree. */
  lemma {:induction false} NearestAtOptimal(h: Tree, q: Point, best: Option<Point>, o: Orientation, region: Rect)
    requires Valid(h, o, region)
    ensures AsCloseAsAll(q, NearestAt(h, q, best, o), Keys(h))
  {
    match h
    case Nil =>
    case Node(k, rect, l, rt) =>
      if !Improves(rect.DistanceSquaredTo(q), q, best) {
        PrunedByRegion(h, q, best, o, region);
      } else {
        var best1 := if Improves(DistSq(q, k), q, best) then Some(k) else best;
        var diff := Coord(q, o) - Coord(k, o);
        var near := if diff < 0.0 then l else rt;
        var far := if diff < 0.0 then rt else l;
        var nearRegion := if diff < 0.0 then LeftRect(region, k, o) else RightRect(region, k, o);
        var farRegion := if diff < 0.0 then RightRect(region, k, o) else LeftRect(region, k, o);
        NearestAtOptimal(near, q, best1, o.Flip(), nearRegion);
        var best2 := NearestAt(near, q, best1, o.Flip());
        if Improves(Square(diff), q, best2) {
          NearestAtOptimal(far, q, best2, o.Flip(), farRegion);
        }
        NearestAtStep(h, q, best, o, region, best1, best2);
      }
  }

  /** The tree as the program sees it: the root and the running size. */
  datatype Index = Index(root: Tree, size: nat)

  /** The class invariant: the root owns the unit square and splits
      vertically, and size counts the stored keys. */
  predicate Inv(t: Index)
  {
    Valid(t.root, Vertical, UnitSquare) && t.size == |Keys(t.root)|
  }

  /** The empty tree. */
  function Empty(): (t: Index)
    ensures Inv(t) && Keys(t.root) == {}
  {
    Index(Nil, 0)
  }

  function IsEmpty(t: Index): (b: bool)
    requires Inv(t)
    ensures b <==> t.size == 0
    ensures b <==> Keys(t.root) == {}
  {
    t.root.Nil?
  }

  function Size(t: Index): (n: nat)
    requires Inv(t)
    ensures n == |Keys(t.root)| == NodeCount(t.root)
  {
    DistinctKeys(t.root, Vertical, UnitSquare);
    t.size
  }

  /** Adds p; a point already present changes nothing, and the size grows
      only when a node is created. The invariant is kept for every point of
      the unit square. */
  function Insert(t: Index, p: Point): (r: Index)
    ensures Keys(r.root) == Keys(t.root) + {p}
    ensures Inv(t) && UnitSquare.Contains(p) ==> Inv(r)
    ensures Inv(t) && p in Keys(t.root) ==> r == t
    ensures Inv(t) && p !in Keys(t.root) ==> r.size == t.size + 1
  {
    var ins := InsertAt(t.root, p, Vertical, UnitSquare);
    var r := Index(ins.tree, if ins.created then t.size + 1 else t.size);
    if !Inv(t) then r
    else
      InsertAtCreated(t.root, p, Vertical, UnitSquare);
      if UnitSquare.Contains(p) then
        InsertAtValid(t.root, p, Vertical, UnitSquare);
        r
      else r
  }

  function Contains(t: Index, p: Point): (b: bool)
    requires Inv(t)
    ensures b <==> p in Keys(t.root)
  {
    ContainsAtIffKey(t.root, p, Vertical, UnitSquare);
    ContainsAt(t.root, p, Vertical)
  }

  function Range(t: Index, q: Rect): (r: multiset<Point>)
    requires Inv(t)
    ensures r == multiset(Inside(Keys(t.root), q))
  {
    RangeAtExact(t.root, q, Vertical, UnitSquare);
    RangeAt(t.root, q)
  }

  /** A nearest neighbour of q, or None when the tree is empty. */
  function Nearest(t: Index, q: Point): (r: Option<Point>)
    requires Inv(t)
    ensures r.None? <==> Keys(t.root) == {}
    ensures r.Some? ==> IsNearest(q, r.value, Keys(t.root))
  {
    if IsEmpty(t) then None
    else
      NearestAtSome(t.root, q, None, Vertical);
      NearestAtOptimal(t.root, q, None, Vertical, UnitSquare);
      NearestAt(t.root, q, None, Vertical)
  }
}
