/** Planar points, splitting axes and the distance the KD-tree compares by. */
module Geometry {

  /** A point with exact integer coordinates; equality is coordinate equality. */
  datatype Point = Point(x: int, y: int)

  /** The axis a tree node splits on: VERTICAL compares x, HORIZONTAL compares y. */
  datatype Dimension = Vertical | Horizontal

  /** The coordinate of `p` that dimension `d` compares. */
  function Coord(p: Point, d: Dimension): int
  {
    if d == Vertical then p.x else p.y
  }

  /** The other axis (`changeDimension`). */
  function ChangeDimension(d: Dimension): (r: Dimension)
    ensures r != d
  {
    if d == Vertical then Horizontal else Vertical
  }

  /** Three-way comparison of `a` and `b` on axis `d`, with the sign convention of `Double.compare`. */
  function Compare(a: Point, b: Point, d: Dimension): (r: int)
    ensures -1 <= r <= 1
    ensures r < 0 <==> Coord(a, d) < Coord(b, d)
    ensures r == 0 <==> Coord(a, d) == Coord(b, d)
    ensures r > 0 <==> Coord(a, d) > Coord(b, d)
  {
    if d == Vertical then Sign(a.x - b.x) else Sign(a.y - b.y)
  }

  function Sign(v: int): int
  {
    if v < 0 then -1 else if v == 0 then 0 else 1
  }

  /** The square of `v`, defined by recursion on its absolute value; `SqIsProduct` shows it is
    * `v * v`. The recursive form keeps multiplication of two unknowns out of the distance
    * comparisons in the search proofs: those need only `SqMonotone`, `SqNeg` and `SqPositive`,
    * which are linear facts the solver handles cheaply, where `v * v` would make every such
    * comparison a nonlinear one. */
  function Sq(v: int): nat
    decreases if v < 0 then 1 - v else v
  {
    if v < 0 then Sq(-v) else if v == 0 then 0 else Sq(v - 1) + 2 * v - 1
  }

  lemma {:induction false} SqIsProduct(v: int)
    ensures Sq(v) == v * v
    decreases if v < 0 then 1 - v else v
  {
    if v < 0 {
      SqIsProduct(-v);
    } else if v > 0 {
      SqIsProduct(v - 1);
    }
  }

  /** Squared Euclidean distance; it orders pairs of points as Euclidean distance does. */
  function Dist(a: Point, b: Point): nat
  {
    Sq(a.x - b.x) + Sq(a.y - b.y)
  }

  /** `Dist` is the sum of the squared coordinate differences. */
  lemma DistIsSumOfSquares(a: Point, b: Point)
    ensures Dist(a, b) == (a.x - b.x) * (a.x - b.x) + (a.y - b.y) * (a.y - b.y)
  {
    SqIsProduct(a.x - b.x);
    SqIsProduct(a.y - b.y);
  }

  /** Squares are monotone in the absolute value. */
  lemma {:induction false} SqMonotone(u: int, v: int)
    requires 0 <= u <= v
    ensures Sq(u) <= Sq(v)
    decreases v - u
  {
    if u < v {
      SqMonotone(u, v - 1);
    }
  }

  lemma SqNeg(v: int)
    ensures Sq(-v) == Sq(v)
  {
    if v < 0 {
      assert Sq(v) == Sq(-v);
    }
  }

  /** Distance is symmetric, zero on a point and positive between distinct points. */
  lemma DistZero(a: Point, b: Point)
    ensures Dist(a, b) == Dist(b, a)
    ensures Dist(a, b) == 0 <==> a == b
  {
    SqNeg(a.x - b.x);
    SqNeg(a.y - b.y);
    if a != b {
      if a.x != b.x {
        SqPositive(a.x - b.x);
      } else {
        SqPositive(a.y - b.y);
      }
    }
  }

  lemma SqPositive(v: int)
    requires v != 0
    ensures Sq(v) > 0
  {
    if v < 0 {
      assert Sq(v) == Sq(-v) == Sq(-v - 1) + 2 * (-v) - 1;
    } else {
      assert Sq(v) == Sq(v - 1) + 2 * v - 1;
    }
  }
}
