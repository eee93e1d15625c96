# Two-dimensional KD-tree: a verified model

This project models the point set of the Bear-Map project's `KDTree`. It is a binary
space partition of planar points. The axis alternates by depth: the root splits on
`VERTICAL` (x), its children on `HORIZONTAL` (y), and so on. The tree is built by
inserting a list of points one at a time. It answers one query, `nearest(x, y)`: a
branch-and-bound depth-first search that skips the far side of a splitting line
when that line is no closer to the goal than the best point found so far.

The model has two layers.

- A value layer: the `Tree` datatype. `KdModel` holds `Add` (the source's `add`) and
  `Build` (what the constructor's loop computes). `KdSearch` holds `Prune` and
  `Nearest` (the source's `prune` and private `nearest`). The lemmas are proved on
  this layer:
  - the ordering and axis-alternation invariant;
  - the stored point set, and how duplicates collapse;
  - idempotence of `add`;
  - pruning soundness;
  - that the search result is a closest stored point, matching a brute-force scan of
    the input list (`NaiveNearest`, a reference definition that is not in the source).
- A heap layer (`KdTree`): the classes `Node` and `KDTree` with the source's fields.
  - `KDTree.Add` rewrites `leftChild`/`rightChild` links in place and returns the node,
    as `add` does.
  - The constructor loops over the list, reassigning `root`.
  - `NearestFrom` walks the links and threads a `best` node. `Nearest(x, y)` returns
    that node's point.
  - Each node carries a ghost `Model` (the value of its subtree) and a ghost `Repr`
    (its objects). Every heap method is proved equal to its value-level counterpart.

Coordinates are integers. Distance is squared Euclidean distance (`Geometry.Dist`), which
ranks pairs of points the same way Euclidean distance does. The square `Sq` is defined by
recursion on the absolute value; `SqIsProduct` proves that it equals `v * v`. The recursive
form keeps the distance comparisons of the search proofs linear (they use only monotonicity
and sign facts about `Sq`), instead of products of two unknowns.
`Double.compare` is modelled as a three-way sign comparison. `Point.equals` is modelled as exact coordinate equality.

The comment at KDTree.java:13 assumes a list of at least one point, but the constructor
accepts an empty one and leaves `root` null (KDTree.java:14-19); only `nearest` then fails,
by dereferencing the null result at KDTree.java:25-26. The model follows the code: the
constructor accepts any list, and `KDTree.Nearest` requires a non-empty tree.

## Model

| member | source | states |
|---|---|---|
| `Geometry.ChangeDimension` | bearmaps/proj2ab/KDTree.java:88-94 | the result is the other axis |
| `Geometry.Compare` | bearmaps/proj2ab/KDTree.java:96-102 | the sign is -1, 0 or 1, and is negative, zero or positive exactly when `a`'s coordinate on the axis is below, equal to or above `b`'s |
| `Geometry.SqIsProduct` | bearmaps/proj2ab/KDTree.java:123-125 | `Sq(v)` is `v * v`, so `Dist` is the squared Euclidean distance |
| `Geometry.DistIsSumOfSquares` | bearmaps/proj2ab/KDTree.java:123-125 | `Dist(a, b)` is the sum of the squared differences of the coordinates |
| `Geometry.DistZero` | bearmaps/proj2ab/KDTree.java:123-125 | distance is symmetric and is zero exactly between equal points |
| `KdModel.Add` | bearmaps/proj2ab/KDTree.java:71-86 | insertion always yields a node, and a non-empty tree keeps its root point and root axis (`add` returns `n` itself); the rest of its behaviour is fixed by `AddPoints`, `AddValid`, `AddStored`, `AddIdempotent` and `AddSize` |
| `KdModel.AddPoints` | bearmaps/proj2ab/KDTree.java:71-86 | after insertion, the stored points are the old ones plus `p`, for any tree |
| `KdModel.AddAlternates` | bearmaps/proj2ab/KDTree.java:71-94 | if the axes alternate from `d`, they still do after insertion: the new leaf gets the axis of its depth |
| `KdModel.AddOrdered` | bearmaps/proj2ab/KDTree.java:79-84 | on a valid tree, insertion keeps "left below, right at or above" on every node's own axis |
| `KdModel.AddValid` | bearmaps/proj2ab/KDTree.java:71-86 | insertion preserves the whole invariant (alternation plus ordering) |
| `KdModel.AddStored` | bearmaps/proj2ab/KDTree.java:76-84 | on a valid tree, inserting a point stored anywhere in it returns the tree unchanged |
| `KdModel.AddIdempotent` | bearmaps/proj2ab/KDTree.java:71-86 | for every tree, inserting the same point twice gives the same tree as inserting it once |
| `KdModel.AddSize` | bearmaps/proj2ab/KDTree.java:73-77 | insertion adds exactly one node when the point is new and none when it is already stored |
| `KdModel.BuildStep` | bearmaps/proj2ab/KDTree.java:16-18 | one loop iteration keeps validity and "node count = number of distinct points", and adds `p` to the points |
| `KdModel.BuildCorrect` | bearmaps/proj2ab/KDTree.java:14-19 | the built tree alternates axes from `VERTICAL` at the root, is ordered, stores exactly the input points, and has one node per distinct point |
| `KdModel.Build` | bearmaps/proj2ab/KDTree.java:14-19 | a non-empty list builds a non-empty tree whose root holds the list's first point and splits on `VERTICAL`; the rest of its behaviour is fixed by `BuildCorrect` |
| `KdSearch.Projection` | bearmaps/proj2ab/KDTree.java:61-66 | the projected point lies on the node's splitting line and agrees with the goal on the other axis; `ProjectionBound` states why it bounds the far side |
| `KdSearch.Prune` | bearmaps/proj2ab/KDTree.java:58-68 | the bad side is explored only below a node, and never once `best` is the goal itself; `PruneSound` states that a false answer loses no strictly closer point |
| `KdSearch.Nearest` | bearmaps/proj2ab/KDTree.java:30-56 | the result is `best` or a stored point, and is no farther from the goal than `best`; `NearestImproves`, `NearestIsClosest` and `NearestFromRoot` state its correctness |
| `KdSearch.GoodSide` | bearmaps/proj2ab/KDTree.java:36-43 | the good child is the left one when the goal is below the node on the node's axis, otherwise the right one |
| `KdSearch.BadSide` | bearmaps/proj2ab/KDTree.java:36-43 | the bad child is the right one when the goal is below the node on the node's axis, otherwise the left one |
| `KdSearch.ProjectionBound` | bearmaps/proj2ab/KDTree.java:58-68 | a point strictly on the far side of the splitting line from the goal is at least as far from the goal as the goal's projection onto that line |
| `KdSearch.PruneSound` | bearmaps/proj2ab/KDTree.java:47-51 | on an ordered tree, when `prune` is false every bad-side point is at least as far as `best`, so skipping it loses no strictly closer point |
| `KdSearch.NearestImproves` | bearmaps/proj2ab/KDTree.java:30-56 | the search returns `best` itself or a stored point strictly closer than `best`, so the best distance never increases and changes only on strict improvement |
| `KdSearch.NearestIsClosest` | bearmaps/proj2ab/KDTree.java:30-56 | on an ordered tree, no stored point is strictly closer to the goal than the search result |
| `KdSearch.NearestFromRoot` | bearmaps/proj2ab/KDTree.java:22-34 | started from the root of a non-empty ordered tree, the result is a stored point and no stored point is strictly closer |
| `KdSearch.SelfQuery` | bearmaps/proj2ab/KDTree.java:22-34 | querying the coordinates of a stored point returns that point |
| `KdSearch.NearestShapeIndependent` | bearmaps/proj2ab/KDTree.java:22-27 | two ordered trees with the same point set answer every query at the same distance |
| `KdSearch.NaiveNearestCorrect` | bearmaps/proj2ab/KDTree.java:9 | the brute-force reference scan returns an input point that no input point is strictly closer than |
| `KdSearch.BuildMatchesBruteForce` | bearmaps/proj2ab/KDTree.java:14-34 | the tree built from a non-empty list returns an input point at the same distance as the brute-force scan of the list |
| `KdSearch.BuildOrderIndependent` | bearmaps/proj2ab/KDTree.java:14-27 | lists with the same points, in any order and with any repetitions, build trees whose answers are equally near |
| `KdSearch.FourPointTree` | bearmaps/proj2ab/KDTree.java:14-19 | building from (1,1), (5,5), (3,3), (8,2) gives an ordered tree storing exactly those four points |
| `KdSearch.FourPointQueries` | bearmaps/proj2ab/KDTree.java:22-56 | on any ordered tree storing those four points, (0,0) returns (1,1), (6,2) returns (8,2), and (4,4) returns (3,3) or (5,5), which are equally near |
| `KdTree.Node.constructor` | bearmaps/proj2ab/KDTree.java:114-117 | a new node holding `p` on axis `d`, with no children |
| `KdTree.Node.Distance` | bearmaps/proj2ab/KDTree.java:123-125 | a node's distance to `target` is zero exactly when the node holds `target` |
| `KdTree.KDTree.constructor` | bearmaps/proj2ab/KDTree.java:14-19 | the loop leaves a valid tree whose value is `Build(points)`: it stores exactly the input points, one node per distinct point |
| `KdTree.KDTree.Add` | bearmaps/proj2ab/KDTree.java:71-86 | the returned subtree is valid and its value is the value-level `Add`; a non-empty `n` is returned itself, and only new objects join its footprint |
| `KdTree.KDTree.Nearest` | bearmaps/proj2ab/KDTree.java:22-27 | on a non-empty tree, returns a stored point that no stored point is strictly closer than, and returns `(x, y)` itself when it is stored |
| `KdTree.KDTree.NearestFrom` | bearmaps/proj2ab/KDTree.java:30-56 | the returned node is `best` or a node of the subtree, and its point is what the value-level search computes |
| `KdTree.KDTree.PruneAt` | bearmaps/proj2ab/KDTree.java:58-68 | false at an empty link; otherwise whether the splitting line is strictly closer to the goal than `best`, as the value-level `Prune` says |

## Left out

- `bearmaps/proj2c/server/handler/impl/RasterAPIHandler.java` (HTTP handling, tile arithmetic, image I/O, route drawing) is not part of this model; it is presentation logic built on the point set.
- Floating point: coordinates are exact integers, so `NaN`, `-0.0` and the rounding of `Double.compare` and `Point.distance` are not modelled.
- `Point` and `PointSet` are not part of this model. `Point.equals` is taken as exact coordinate equality and `Point.distance` as squared Euclidean distance. The `PointSet` interface is represented only by `KDTree.Nearest(x, y)`.
- The empty tree: `nearest` on an empty tree throws a `NullPointerException` in the source. The model makes a non-empty tree a precondition of `KDTree.Nearest` rather than modelling the exception.
- Tie-breaking: when several stored points are equally near, the model does not state which one is returned.
- `KdTree.KDTree.NearestFrom`: states the returned node's point and that the node is `best` or in the subtree. It does not state which node object is returned when two nodes hold the same point; built trees hold at most one node per point.
- Recursion depth, running time and concurrent use are not modelled.
