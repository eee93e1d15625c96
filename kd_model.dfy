/** The KD-tree as a value: its shape, its invariants, insertion and bulk construction. */
module KdModel {
  import opened Geometry

  /** `Node(p, dim, left, right)` stores `p` and splits its subtrees on `dim`. */
  datatype Tree = Leaf | Node(p: Point, dim: Dimension, left: Tree, right: Tree)

  /** The points stored in `t`. */
  function Points(t: Tree): set<Point>
  {
    match t
    case Leaf => {}
    case Node(q, _, l, r) => {q} + Points(l) + Points(r)
  }

  /** The number of nodes of `t`. */
  function Size(t: Tree): nat
  {
    match t
    case Leaf => 0
    case Node(_, _, l, r) => 1 + Size(l) + Size(r)
  }

  /** The node at the top of `t` splits on `d`, and each child on the other axis of its parent. */
  ghost predicate Alternates(t: Tree, d: Dimension)
  {
    match t
    case Leaf => true
    case Node(_, nd, l, r) =>
      nd == d && Alternates(l, ChangeDimension(d)) && Alternates(r, ChangeDimension(d))
  }

  /** At every node, the left subtree holds only points below the node's point on the node's
    * axis, and the right subtree only points at or above it. */
  ghost predicate Ordered(t: Tree)
  {
    match t
    case Leaf => true
    case Node(q, d, l, r) =>
      (forall s :: s in Points(l) ==> Coord(s, d) < Coord(q, d)) &&
      (forall s :: s in Points(r) ==> Coord(s, d) >= Coord(q, d)) &&
      Ordered(l) && Ordered(r)
  }

  /** The invariant of a tree whose root is visited with axis `d`. */
  ghost predicate Valid(t: Tree, d: Dimension)
  {
    Alternates(t, d) && Ordered(t)
  }

  /** Insertion (`add`): a new leaf at an empty position, the node unchanged when it already holds
    * `p`, otherwise the right subtree when `p` is at or above the node on axis `d`, else the left. */
  function Add(t: Tree, p: Point, d: Dimension): (r: Tree)
    ensures r.Node?
    ensures t.Node? ==> r.p == t.p && r.dim == t.dim
  {
    match t
    case Leaf => Node(p, d, Leaf, Leaf)
    case Node(q, nd, l, r) =>
      if q == p then t
      else if Compare(p, q, d) >= 0 then Node(q, nd, l, Add(r, p, ChangeDimension(d)))
      else Node(q, nd, Add(l, p, ChangeDimension(d)), r)
  }

  /** The tree the constructor builds: the points inserted at the root one by one, in order.
    * A non-empty list puts its first point at the root, splitting on VERTICAL. */
  function Build(ps: seq<Point>): (r: Tree)
    ensures ps != [] ==> r.Node? && r.p == ps[0] && r.dim == Vertical
  {
    if ps == [] then Leaf else Add(Build(ps[..|ps| - 1]), ps[|ps| - 1], Vertical)
  }

  function Elements(ps: seq<Point>): set<Point>
  {
    set i | 0 <= i < |ps| :: ps[i]
  }

  /** Inserting adds exactly `p` to the stored points. */
  lemma {:induction false} AddPoints(t: Tree, p: Point, d: Dimension)
    ensures Points(Add(t, p, d)) == Points(t) + {p}
  {
    match t
    case Leaf =>
    case Node(q, nd, l, r) =>
      if q != p {
        if Compare(p, q, d) >= 0 {
          AddPoints(r, p, ChangeDimension(d));
        } else {
          AddPoints(l, p, ChangeDimension(d));
        }
      }
  }

  /** The new leaf gets the axis that alternation demands at its depth. */
  lemma {:induction false} AddAlternates(t: Tree, p: Point, d: Dimension)
    requires Alternates(t, d)
    ensures Alternates(Add(t, p, d), d)
  {
    match t
    case Leaf =>
    case Node(q, nd, l, r) =>
      if q != p {
        if Compare(p, q, d) >= 0 {
          AddAlternates(r, p, ChangeDimension(d));
        } else {
          AddAlternates(l, p, ChangeDimension(d));
        }
      }
  }

  /** Insertion keeps the per-axis ordering, because the axis `add` compares on is the node's own. */
  lemma {:induction false} AddOrdered(t: Tree, p: Point, d: Dimension)
    requires Valid(t, d)
    ensures Ordered(Add(t, p, d))
  {
    match t
    case Leaf =>
    case Node(q, nd, l, r) =>
      if q != p {
        if Compare(p, q, d) >= 0 {
          AddOrdered(r, p, ChangeDimension(d));
          AddPoints(r, p, ChangeDimension(d));
        } else {
          AddOrdered(l, p, ChangeDimension(d));
          AddPoints(l, p, ChangeDimension(d));
        }
      }
  }

  lemma AddValid(t: Tree, p: Point, d: Dimension)
    requires Valid(t, d)
    ensures Valid(Add(t, p, d), d)
  {
    AddAlternates(t, p, d);
    AddOrdered(t, p, d);
  }

  /** In a valid tree, inserting a point it already stores changes nothing: the insertion path
    * follows the ordering down to the node that holds the point. */
  lemma {:induction false} AddStored(t: Tree, p: Point, d: Dimension)
    requires Valid(t, d) && p in Points(t)
    ensures Add(t, p, d) == t
  {
    match t
    case Node(q, nd, l, r) =>
      if q != p {
        if p in Points(r) {
          AddStored(r, p, ChangeDimension(d));
        } else {
          AddStored(l, p, ChangeDimension(d));
        }
      }
  }

  /** Insertion is idempotent on every tree: the second insertion follows the first one's path
    * down to the node the first one left holding `p`. */
  lemma {:induction false} AddIdempotent(t: Tree, p: Point, d: Dimension)
    ensures Add(Add(t, p, d), p, d) == Add(t, p, d)
  {
    match t
    case Leaf =>
    case Node(q, nd, l, r) =>
      if q != p {
        if Compare(p, q, d) >= 0 {
          AddIdempotent(r, p, ChangeDimension(d));
        } else {
          AddIdempotent(l, p, ChangeDimension(d));
        }
      }
  }

  /** Insertion adds one node, or none when the point is already stored. */
  lemma {:induction false} AddSize(t: Tree, p: Point, d: Dimension)
    requires Valid(t, d)
    ensures Size(Add(t, p, d)) == Size(t) + (if p in Points(t) then 0 else 1)
  {
    if p in Points(t) {
      AddStored(t, p, d);
    } else {
      match t
      case Leaf =>
      case Node(q, nd, l, r) =>
        if Compare(p, q, d) >= 0 {
          AddSize(r, p, ChangeDimension(d));
        } else {
          AddSize(l, p, ChangeDimension(d));
        }
    }
  }

  /** The constructor's tree: its root splits on VERTICAL with alternating axes below, it is
    * ordered, it stores exactly the input points, and duplicates collapse to one node each. */
  lemma {:induction false} BuildCorrect(ps: seq<Point>)
    ensures Valid(Build(ps), Vertical)
    ensures Points(Build(ps)) == Elements(ps)
    ensures Size(Build(ps)) == |Points(Build(ps))|
  {
    if ps != [] {
      var init, p := ps[..|ps| - 1], ps[|ps| - 1];
      assert ps == init + [p];
      BuildCorrect(init);
      BuildStep(Build(init), p);
      ElementsSnoc(init, p);
    }
  }

  /** One insertion at the root keeps the three facts `BuildCorrect` states. */
  lemma BuildStep(t: Tree, p: Point)
    requires Valid(t, Vertical) && Size(t) == |Points(t)|
    ensures Valid(Add(t, p, Vertical), Vertical)
    ensures Points(Add(t, p, Vertical)) == Points(t) + {p}
    ensures Size(Add(t, p, Vertical)) == |Points(Add(t, p, Vertical))|
  {
    AddValid(t, p, Vertical);
    AddPoints(t, p, Vertical);
    AddSize(t, p, Vertical);
    var pts := Points(t);
    if p in pts {
      assert pts + {p} == pts;
    } else {
      assert |pts + {p}| == |pts| + 1;
    }
  }

  lemma ElementsSnoc(ps: seq<Point>, p: Point)
    ensures Elements(ps + [p]) == Elements(ps) + {p}
  {
    var qs := ps + [p];
    forall s | s in Elements(qs) ensures s in Elements(ps) + {p} {
      var i :| 0 <= i < |qs| && qs[i] == s;
      if i < |ps| {
        assert ps[i] == s;
      }
    }
    forall s | s in Elements(ps) ensures s in Elements(qs) {
      var i :| 0 <= i < |ps| && ps[i] == s;
      assert qs[i] == s;
    }
    assert qs[|ps|] == p;
  }
}
