/** The KD-tree over heap nodes: insertion rewrites child links in place, and the query walks
  * the links. Each node's ghost `Model` is the value-level tree it roots. */
module KdTree {
  import opened Geometry
  import opened KdModel
  import opened KdSearch

  /** A tree node: a point, the axis it splits on and its two child links. */
  class Node {
    var dimension: Dimension
    var point: Point
    var leftChild: Node?
    var rightChild: Node?

    ghost var Model: Tree
    ghost var Repr: set<object>

    /** The subtree rooted here is a proper tree (children own disjoint parts of the heap)
      * and `Model` is its value. */
    ghost predicate Valid()
      reads this, Repr
      decreases Repr
    {
      this in Repr &&
      (leftChild != null ==>
        leftChild in Repr && leftChild.Repr <= Repr && this !in leftChild.Repr && leftChild.Valid()) &&
      (rightChild != null ==>
        rightChild in Repr && rightChild.Repr <= Repr && this !in rightChild.Repr && rightChild.Valid()) &&
      (leftChild != null && rightChild != null ==> leftChild.Repr !! rightChild.Repr) &&
      Model == Tree.Node(point, dimension, ModelOf(leftChild), ModelOf(rightChild))
    }

    /** A leaf holding `p` that splits on `d`. */
    constructor (p: Point, d: Dimension)
      ensures Valid() && fresh(Repr)
      ensures Model == Tree.Node(p, d, Leaf, Leaf)
    {
      dimension := d;
      point := p;
      leftChild := null;
      rightChild := null;
      Model := Tree.Node(p, d, Leaf, Leaf);
      Repr := {this};
    }

    /** The distance from this node's point to `target`. */
    function Distance(target: Point): (r: nat)
      reads this
      ensures r == 0 <==> point == target
    {
      DistZero(point, target);
      Dist(point, target)
    }
  }

  /** The value of the subtree at a possibly empty link. */
  ghost function ModelOf(n: Node?): Tree
    reads if n == null then {} else {n}
  {
    if n == null then Leaf else n.Model
  }

  /** The objects of the subtree at a possibly empty link. */
  ghost function ReprOf(n: Node?): set<object>
    reads if n == null then {} else {n}
  {
    if n == null then {} else n.Repr
  }

  /** The point set: the root link, built once from a list of points. */
  class KDTree {
    var root: Node?

    ghost var Model: Tree
    ghost var Repr: set<object>

    /** The nodes form a tree whose value is `Model`; that value alternates axes from VERTICAL
      * at the root and is ordered on every node's axis. */
    ghost predicate Valid()
      reads this, Repr
    {
      this in Repr &&
      (root == null ==> Model == Leaf) &&
      (root != null ==>
        root in Repr && root.Repr <= Repr && this !in root.Repr && root.Valid() && Model == root.Model) &&
      KdModel.Valid(Model, Vertical)
    }

    /** Inserts the points one at a time in list order, each starting at the root on VERTICAL. */
    constructor (points: seq<Point>)
      ensures Valid() && fresh(Repr)
      ensures Model == Build(points)
      ensures Points(Model) == Elements(points)
      ensures Size(Model) == |Points(Model)|
    {
      root := null;
      Model := Leaf;
      Repr := {this};
      new;
      var i := 0;
      while i < |points|
        invariant 0 <= i <= |points|
        invariant Valid() && fresh(Repr)
        invariant Model == Build(points[..i])
      {
        assert points[..i + 1][..i] == points[..i];
        AddValid(Model, points[i], Vertical);
        root := Add(root, points[i], Vertical);
        Model := root.Model;
        Repr := {this} + root.Repr;
        i := i + 1;
      }
      assert points[..i] == points;
      BuildCorrect(points);
    }

    /** `add`: returns the subtree at `n` with `p` inserted on axis `d`. An empty link becomes a
      * new leaf; otherwise `n` itself is returned, with one child link rewritten in place. */
    static method Add(n: Node?, p: Point, d: Dimension) returns (r: Node)
      requires n != null ==> n.Valid()
      modifies ReprOf(n)
      ensures r.Valid()
      ensures r.Model == KdModel.Add(old(ModelOf(n)), p, d)
      ensures n != null ==> r == n && fresh(r.Repr - old(n.Repr))
      ensures n == null ==> fresh(r.Repr)
      decreases ReprOf(n)
    {
      if n == null {
        r := new Node(p, d);
        return;
      }
      if n.point == p {
        return n;
      }
      var newDimension := ChangeDimension(d);
      if Compare(p, n.point, d) >= 0 {
        var c := Add(n.rightChild, p, newDimension);
        n.rightChild := c;
        n.Repr := n.Repr + c.Repr;
      } else {
        var c := Add(n.leftChild, p, newDimension);
        n.leftChild := c;
        n.Repr := n.Repr + c.Repr;
      }
      n.Model := Tree.Node(n.point, n.dimension, ModelOf(n.leftChild), ModelOf(n.rightChild));
      r := n;
    }

    /** `nearest(x, y)`: the stored point nearest to `(x, y)`. On an empty tree the source
      * dereferences a null root, so a non-empty tree is required. */
    method Nearest(x: int, y: int) returns (p: Point)
      requires Valid() && root != null
      ensures IsNearestIn(p, Points(Model), Point(x, y))
      ensures Point(x, y) in Points(Model) ==> p == Point(x, y)
      ensures p == KdSearch.Nearest(Model, Point(x, y), Model.p)
    {
      var target := Point(x, y);
      var result := NearestFrom(root, target, root);
      p := result.point;
      NearestFromRoot(Model, target);
      if target in Points(Model) {
        SelfQuery(Model, target);
      }
    }

    /** The private `nearest(n, goal, best)` over the links: the answer is `best` or a node of the
      * subtree at `n`, and its point is the one the value-level search computes from `best`'s. */
    static method NearestFrom(n: Node?, goal: Point, best: Node) returns (r: Node)
      requires n != null ==> n.Valid()
      ensures r == best || r in ReprOf(n)
      ensures r.point == KdSearch.Nearest(ModelOf(n), goal, best.point)
      decreases ReprOf(n)
    {
      if n == null {
        return best;
      }
      var b := best;
      if n.Distance(goal) < b.Distance(goal) {
        b := n;
      }
      var goodSide, badSide;
      if Compare(goal, n.point, n.dimension) < 0 {
        goodSide := n.leftChild;
        badSide := n.rightChild;
      } else {
        goodSide := n.rightChild;
        badSide := n.leftChild;
      }
      assert ModelOf(goodSide) == GoodSide(n.Model, goal);
      assert ModelOf(badSide) == BadSide(n.Model, goal);
      b := NearestFrom(goodSide, goal, b);
      if PruneAt(n, goal, b) {
        b := NearestFrom(badSide, goal, b);
      }
      r := b;
    }

    /** `prune` on links: false at an empty link, otherwise whether the node's splitting line is
      * strictly closer to the goal than `best`'s point. */
    static function PruneAt(node: Node?, goal: Point, best: Node): (r: bool)
      reads if node == null then {} else {node}, best
      ensures node == null ==> !r
      ensures node != null && node.Valid() ==> r == Prune(node.Model, goal, best.point)
    {
      if node == null then false
      else
        var p := if node.dimension == Horizontal then Point(goal.x, node.point.y)
                 else Point(node.point.x, goal.y);
        Dist(p, goal) < Dist(best.point, goal)
    }
  }
}
