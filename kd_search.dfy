/** The nearest-neighbour query as a value-level function, and why its pruning is sound. */
module KdSearch {
  import opened Geometry
  import opened KdModel

  /** The goal moved onto the splitting line of a node at `q` with axis `d`: only the coordinate
    * on `d` is replaced by the node's. */
  function Projection(q: Point, d: Dimension, goal: Point): (r: Point)
    ensures Coord(r, d) == Coord(q, d)
    ensures Coord(r, ChangeDimension(d)) == Coord(goal, ChangeDimension(d))
  {
    if d == Horizontal then Point(goal.x, q.y) else Point(q.x, goal.y)
  }

  /** The child on the side the goal would be inserted into. */
  function GoodSide(t: Tree, goal: Point): (g: Tree)
    requires t.Node?
    ensures Coord(goal, t.dim) < Coord(t.p, t.dim) ==> g == t.left
    ensures Coord(goal, t.dim) >= Coord(t.p, t.dim) ==> g == t.right
  {
    if Compare(goal, t.p, t.dim) < 0 then t.left else t.right
  }

  /** The other child. */
  function BadSide(t: Tree, goal: Point): (b: Tree)
    requires t.Node?
    ensures Coord(goal, t.dim) < Coord(t.p, t.dim) ==> b == t.right
    ensures Coord(goal, t.dim) >= Coord(t.p, t.dim) ==> b == t.left
  {
    if Compare(goal, t.p, t.dim) < 0 then t.right else t.left
  }

  /** `prune`: true when the bad side must still be explored, that is when the splitting line
    * is strictly closer to the goal than the current best. An empty position is never explored. */
  function Prune(t: Tree, goal: Point, best: Point): (r: bool)
    ensures r ==> t.Node? && best != goal
  {
    match t
    case Leaf => false
    case Node(q, d, _, _) => Dist(Projection(q, d, goal), goal) < Dist(best, goal)
  }

  /** The private `nearest(n, goal, best)`: take the node if it is strictly closer than `best`,
    * search the good side, then the bad side only when `Prune` allows it. */
  function Nearest(t: Tree, goal: Point, best: Point): (r: Point)
    ensures r == best || r in Points(t)
    ensures Dist(r, goal) <= Dist(best, goal)
  {
    match t
    case Leaf => best
    case Node(q, _, _, _) =>
      var b := if Dist(q, goal) < Dist(best, goal) then q else best;
      var b' := Nearest(GoodSide(t, goal), goal, b);
      if Prune(t, goal, b') then Nearest(BadSide(t, goal), goal, b') else b'
  }

  /** `r` is a point of `s` and no point of `s` is strictly closer to `goal`. */
  ghost predicate IsNearestIn(r: Point, s: set<Point>, goal: Point)
  {
    r in s && forall q :: q in s ==> Dist(r, goal) <= Dist(q, goal)
  }

  /** Every point on the far side of a splitting line is at least as far from the goal as the
    * goal's projection onto that line. */
  lemma ProjectionBound(q: Point, d: Dimension, goal: Point, s: Point)
    requires Coord(goal, d) < Coord(q, d) <= Coord(s, d) || Coord(s, d) < Coord(q, d) <= Coord(goal, d)
    ensures Dist(Projection(q, d, goal), goal) <= Dist(s, goal)
  {
    var a, b := Coord(s, d) - Coord(goal, d), Coord(q, d) - Coord(goal, d);
    if Coord(goal, d) < Coord(q, d) {
      SqMonotone(b, a);
    } else {
      SqMonotone(-b, -a);
      SqNeg(a);
      SqNeg(b);
    }
    assert Sq(b) <= Sq(a);
    if d == Vertical {
      assert Dist(Projection(q, d, goal), goal) == Sq(b);
      assert Dist(s, goal) == Sq(a) + Sq(s.y - goal.y);
    } else {
      assert Dist(Projection(q, d, goal), goal) == Sq(b);
      assert Dist(s, goal) == Sq(s.x - goal.x) + Sq(a);
    }
  }

  /** Pruning soundness: when `Prune` says no, every point of the bad side is at least as far
    * from the goal as `best`, so skipping it loses no strictly closer point. */
  lemma PruneSound(t: Tree, goal: Point, best: Point)
    requires Ordered(t) && t.Node? && !Prune(t, goal, best)
    ensures forall s :: s in Points(BadSide(t, goal)) ==> Dist(best, goal) <= Dist(s, goal)
  {
    forall s | s in Points(BadSide(t, goal))
      ensures Dist(best, goal) <= Dist(s, goal)
    {
      ProjectionBound(t.p, t.dim, goal, s);
    }
  }

  /** The search result is `best` itself, or a stored point strictly closer than `best`:
    * `best` is only ever replaced on a strict improvement, so its distance never grows. */
  lemma {:induction false} NearestImproves(t: Tree, goal: Point, best: Point)
    ensures var r := Nearest(t, goal, best);
      r == best || (r in Points(t) && Dist(r, goal) < Dist(best, goal))
  {
    match t
    case Leaf =>
    case Node(q, _, _, _) =>
      var b := if Dist(q, goal) < Dist(best, goal) then q else best;
      var b' := Nearest(GoodSide(t, goal), goal, b);
      NearestImproves(GoodSide(t, goal), goal, b);
      if Prune(t, goal, b') {
        NearestImproves(BadSide(t, goal), goal, b');
      }
  }

  /** On an ordered tree no stored point is strictly closer to the goal than the result. */
  lemma {:induction false} NearestIsClosest(t: Tree, goal: Point, best: Point)
    requires Ordered(t)
    ensures forall s :: s in Points(t) ==> Dist(Nearest(t, goal, best), goal) <= Dist(s, goal)
  {
    match t
    case Leaf =>
    case Node(q, _, _, _) =>
      var good, bad := GoodSide(t, goal), BadSide(t, goal);
      assert Points(t) == {q} + Points(good) + Points(bad);
      var b := if Dist(q, goal) < Dist(best, goal) then q else best;
      var b' := Nearest(good, goal, b);
      NearestIsClosest(good, goal, b);
      NearestImproves(good, goal, b);
      assert Dist(b', goal) <= Dist(q, goal);
      if Prune(t, goal, b') {
        NearestIsClosest(bad, goal, b');
        NearestImproves(bad, goal, b');
      } else {
        PruneSound(t, goal, b');
      }
  }

  /** The public query on a non-empty ordered tree, started from the root: the result is a stored
    * point and no stored point is strictly closer, the same answer as a brute-force scan. */
  lemma NearestFromRoot(t: Tree, goal: Point)
    requires Ordered(t) && t.Node?
    ensures IsNearestIn(Nearest(t, goal, t.p), Points(t), goal)
  {
    NearestImproves(t, goal, t.p);
    NearestIsClosest(t, goal, t.p);
  }

  /** Querying the coordinates of a stored point returns that very point. */
  lemma SelfQuery(t: Tree, p: Point)
    requires Ordered(t) && p in Points(t)
    ensures Nearest(t, p, t.p) == p
  {
    NearestFromRoot(t, p);
    var r := Nearest(t, p, t.p);
    DistZero(p, p);
    DistZero(r, p);
  }

  /** The distance of the answer depends only on the set of stored points, not on the tree's
    * shape; so any insertion order of the same points gives an equally near answer. */
  lemma NearestShapeIndependent(t1: Tree, t2: Tree, goal: Point)
    requires Ordered(t1) && Ordered(t2) && t1.Node? && t2.Node? && Points(t1) == Points(t2)
    ensures Dist(Nearest(t1, goal, t1.p), goal) == Dist(Nearest(t2, goal, t2.p), goal)
  {
    NearestFromRoot(t1, goal);
    NearestFromRoot(t2, goal);
  }

  /** A brute-force scan of the list: keep the first point, replace it by a strictly closer one. */
  function NaiveNearest(ps: seq<Point>, goal: Point): Point
    requires ps != []
  {
    if |ps| == 1 then ps[0]
    else
      var b := NaiveNearest(ps[..|ps| - 1], goal);
      if Dist(ps[|ps| - 1], goal) < Dist(b, goal) then ps[|ps| - 1] else b
  }

  lemma {:induction false} NaiveNearestCorrect(ps: seq<Point>, goal: Point)
    requires ps != []
    ensures IsNearestIn(NaiveNearest(ps, goal), Elements(ps), goal)
  {
    if |ps| == 1 {
      assert Elements(ps) == {ps[0]};
    } else {
      var init, p := ps[..|ps| - 1], ps[|ps| - 1];
      assert ps == init + [p];
      NaiveNearestCorrect(init, goal);
      ElementsSnoc(init, p);
    }
  }

  /** The tree built from a non-empty list answers like the brute-force scan of that list: both
    * answers are input points at the same, minimal, distance from the goal. */
  lemma BuildMatchesBruteForce(ps: seq<Point>, goal: Point)
    requires ps != []
    ensures var t := Build(ps);
      t.Node? && Nearest(t, goal, t.p) in Elements(ps) &&
      Dist(Nearest(t, goal, t.p), goal) == Dist(NaiveNearest(ps, goal), goal)
  {
    BuildCorrect(ps);
    NearestFromRoot(Build(ps), goal);
    NaiveNearestCorrect(ps, goal);
  }

  /** Two lists with the same points, in any order and with any repetitions, build trees that
    * answer every query at the same distance. */
  lemma BuildOrderIndependent(ps: seq<Point>, qs: seq<Point>, goal: Point)
    requires ps != [] && Elements(ps) == Elements(qs)
    ensures Build(ps).Node? && Build(qs).Node?
    ensures Dist(Nearest(Build(ps), goal, Build(ps).p), goal) == Dist(Nearest(Build(qs), goal, Build(qs).p), goal)
  {
    assert ps[0] in Elements(qs);
    BuildCorrect(ps);
    BuildCorrect(qs);
    NearestShapeIndependent(Build(ps), Build(qs), goal);
  }

  /** The four-point example: building from (1,1), (5,5), (3,3), (8,2) stores exactly those. */
  lemma FourPointTree()
    ensures FourPointsStored(Build(FourPoints()))
  {
    var ps := FourPoints();
    BuildCorrect(ps);
    assert Elements(ps) == {ps[0], ps[1], ps[2], ps[3]} == FourPointSet();
  }

  function FourPoints(): seq<Point>
  {
    [Point(1, 1), Point(5, 5), Point(3, 3), Point(8, 2)]
  }

  ghost predicate FourPointsStored(t: Tree)
  {
    Ordered(t) && t.Node? && Points(t) == FourPointSet()
  }

  function FourPointSet(): set<Point>
  {
    {Point(1, 1), Point(5, 5), Point(3, 3), Point(8, 2)}
  }

  /** Three queries on any ordered tree storing the four example points, so on the one built
    * from them: (0,0) gets (1,1); (6,2) gets (8,2), at squared distance 4 against 10 for (5,5)
    * and (3,3); (4,4) is at squared distance 2 from both (3,3) and (5,5) and gets one of them. */
  lemma FourPointQueries(t: Tree)
    requires FourPointsStored(t)
    ensures Nearest(t, Point(0, 0), t.p) == Point(1, 1)
    ensures Nearest(t, Point(6, 2), t.p) == Point(8, 2)
    ensures Nearest(t, Point(4, 4), t.p) in {Point(3, 3), Point(5, 5)}
  {
    NearestFromRoot(t, Point(0, 0));
    ClosestToOrigin();
    NearestFromRoot(t, Point(6, 2));
    ClosestToSixTwo();
    NearestFromRoot(t, Point(4, 4));
    ClosestToFourFour();
  }

  /** The example point nearest to (0,0) is (1,1). */
  lemma ClosestToOrigin()
    ensures forall r :: IsNearestIn(r, FourPointSet(), Point(0, 0)) ==> r == Point(1, 1)
  {
    forall r | IsNearestIn(r, FourPointSet(), Point(0, 0)) ensures r == Point(1, 1) {
      assert Dist(r, Point(0, 0)) <= Dist(Point(1, 1), Point(0, 0));
      DistIsSumOfSquares(Point(1, 1), Point(0, 0));
      WithinTwoOfOrigin();
    }
  }

  lemma WithinTwoOfOrigin()
    ensures forall r :: r in FourPointSet() && Dist(r, Point(0, 0)) <= 2 ==> r == Point(1, 1)
  {
    var g := Point(0, 0);
    forall r | r in FourPointSet() && Dist(r, g) <= 2 ensures r == Point(1, 1) {
      DistIsSumOfSquares(r, g);
    }
  }

  /** The example point nearest to (6,2) is (8,2). */
  lemma ClosestToSixTwo()
    ensures forall r :: IsNearestIn(r, FourPointSet(), Point(6, 2)) ==> r == Point(8, 2)
  {
    forall r | IsNearestIn(r, FourPointSet(), Point(6, 2)) ensures r == Point(8, 2) {
      assert Dist(r, Point(6, 2)) <= Dist(Point(8, 2), Point(6, 2));
      DistIsSumOfSquares(Point(8, 2), Point(6, 2));
      WithinFourOfSixTwo();
    }
  }

  lemma WithinFourOfSixTwo()
    ensures forall r :: r in FourPointSet() && Dist(r, Point(6, 2)) <= 4 ==> r == Point(8, 2)
  {
    var g := Point(6, 2);
    forall r | r in FourPointSet() && Dist(r, g) <= 4 ensures r == Point(8, 2) {
      DistIsSumOfSquares(r, g);
    }
  }

  /** The example points nearest to (4,4) are (3,3) and (5,5). */
  lemma ClosestToFourFour()
    ensures forall r :: IsNearestIn(r, FourPointSet(), Point(4, 4)) ==> r in {Point(3, 3), Point(5, 5)}
  {
    forall r | IsNearestIn(r, FourPointSet(), Point(4, 4)) ensures r in {Point(3, 3), Point(5, 5)} {
      assert Dist(r, Point(4, 4)) <= Dist(Point(3, 3), Point(4, 4));
      DistIsSumOfSquares(Point(3, 3), Point(4, 4));
      WithinTwoOfFourFour();
    }
  }

  lemma WithinTwoOfFourFour()
    ensures forall r :: r in FourPointSet() && Dist(r, Point(4, 4)) <= 2 ==> r in {Point(3, 3), Point(5, 5)}
  {
    var g := Point(4, 4);
    forall r | r in FourPointSet() && Dist(r, g) <= 2 ensures r in {Point(3, 3), Point(5, 5)} {
      DistIsSumOfSquares(r, g);
    }
  }
}
