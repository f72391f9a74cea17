# Optimal development plan: hulls, land area and road cost

A Dafny model of the computational core of `submission.cpp`, a tool that picks
which points of interest a builder should buy. For every non-empty subset of
the points it

- builds the convex hull of the subset (a brute-force hull for five points or
  fewer, otherwise divide and conquer with a tangent merge);
- prices the land as the shoelace area of that hull, truncated to an integer,
  times the land price, truncated again;
- skips the subset when the land alone is over budget;
- prices the roads as the sum of the upper triangle of the distance matrix
  after a Floyd–Warshall closure, times the road price;
- keeps the subset whose total is within budget and strictly greater than the
  best so far.

The modules follow the source's functions:

| file | module | source |
|---|---|---|
| `util.dfy` | `Util` | option type, powers of two, `(i ± 1) % n`, double-to-int truncation |
| `geometry.dfy` | `Geometry` | `Point`, `Point::operator<`, `orientation` |
| `hull_brute.dfy` | `BruteForceHull` | `getHullBrute` |
| `merge.dfy` | `Merge` | `mergeHulls` |
| `hull_dnc.dfy` | `DivideAndConquerHull` | `getHullDNC` |
| `area.dfy` | `Area` | `calculateConvexHullArea` |
| `graph.dfy` | `Graph` | `distance` (as a parameter), `generateGraph`, `floyds`, `sumGraph` |
| `search.dfy` | `Search` | the subset loop of `findOptimalDevelopmentPlan` |

Modelling choices:

- Coordinates take integer values. The source reads them as doubles.
  `orientation` forms its cross product on doubles and truncates only the
  result. The brute-force line test truncates the pair's endpoints to `int`
  but evaluates each point's side on the raw doubles. On integer-valued
  inputs both are exact, so the model agrees with the source there.
- `distance` is a parameter `dist: (Point, Point) -> nat`. The source rounds
  a square root there.
- The angular sort at the end of `getHullBrute` is a parameter of type
  `Arranger`: any function that permutes its input. Its comparator is not a
  strict weak order, so the model promises only that the output is some
  arrangement of the boundary set.
- The tangent walks of `mergeHulls` have no bound in the source, and some
  inputs make them loop forever. Each walk here carries a `fuel` bound and
  returns `None` when the fuel runs out. Every property of a finished walk
  holds for any fuel, and more fuel never changes a finished answer.
- The search takes its hull procedure as a parameter
  `hullOf: seq<Point> -> Option<seq<Point>>`. `Search.DevelopmentPlan` plugs
  in `getHullDNC`. A `None` from the hull procedure stands for a run that does
  not terminate.
- `std::set<Point>` is a strictly `(x, y)`-sorted sequence. Inserting a point
  whose location is already present keeps the point inserted first.
- Doubles are `real`. The two `int` conversions of step 3 and step 4 truncate
  toward zero (`Util.TruncToInt`).
- `floyds` works in place. `Graph.PivotInPlace` and `Graph.Floyd` model it
  that way and are proved equal to the functional definition
  `Graph.Closure` for non-negative matrices.

Where the code does something other than a reader might expect, or than its
own comment says, the model follows the code:

- The Floyd–Warshall closure is not a no-op on the distance matrix.
  Rounded distances can break the triangle inequality, and the closure then
  lowers entries (`Graph.ClosureRepairsTriangleViolation`,
  `Graph.RoundedDiagonalExample`). Any finite two-hop route shorter than the
  direct entry lowers it (`Graph.ClosureRepairsTriangleViolation`), so the
  closure leaves the matrix alone only where the triangle inequality already
  holds. When it holds everywhere off the diagonal, the closure changes no
  off-diagonal entry (`Graph.ClosureKeepsMetricOffDiagonal`), and the road sum
  is unchanged (`Graph.MetricRoadCostUnchanged`).
- When all points are collinear the brute-force hull keeps every point, not
  only the two extremes (`BruteForceHull.CollinearKeepsEveryPoint`).
- The search maximises the total cost within budget, not the number of
  points that the comment at submission.cpp:360-363 promises. Because the
  comparison is strict, ties go to the lowest mask. A plan of cost 0 is never selected: the empty plan is reported instead.

## Model

| member | source | states |
|---|---|---|
| `Util.TruncToInt` | submission.cpp:382-384 | Converting a double to an `int` drops the fraction: for non-negative values the result is the largest integer not above the value, for negative values the smallest integer not below it. |
| `Geometry.LessIsStrictTotalOrder` | submission.cpp:37-40 | The x-then-y comparison is irreflexive, asymmetric and transitive. Two points are equivalent under it exactly when they share a location, which is what makes `set<Point>` keep one point per location. |
| `Geometry.Orientation` | submission.cpp:184-189 | The result is -1, 0 or 1. It is 0 exactly when the cross product is 0 and positive exactly when the cross product is positive. |
| `Geometry.OrientationFacts` | submission.cpp:184-189 | Only -1, 0 and 1 occur. The result is 0 when two of the points share a location. Swapping the first and third point negates it. Rotating the three points leaves it unchanged. |
| `BruteForceHull.BoundaryPairIffOneSide` | submission.cpp:272-298 | A pair passes the counting test (all points `>= c`, or all `<= c`) exactly when every point lies weakly on one side of the pair's line, as judged by the orientation test. |
| `BruteForceHull.InsertsAreEndpoints` | submission.cpp:272-300 | The pair loop inserts exactly the endpoints of the passing pairs. |
| `BruteForceHull.SetInsert` | submission.cpp:296-297 | Inserting into the `(x, y)`-ordered set keeps it strictly sorted and keeps every point already present. The set's locations become the old ones plus the new point's. When the location is already present, the set is unchanged. |
| `BruteForceHull.InsertAll` | submission.cpp:269-300 | Inserting a sequence of points keeps the set strictly sorted, keeps every point already present, adds only inserted points, and adds exactly their locations. |
| `BruteForceHull.HullBrute` | submission.cpp:267-322 | The output is an arrangement of the boundary set. Each output point is an input point that ends a passing pair. No two output points share a location. Every end of a passing pair has its location in the output. The output is no longer than the input. Inputs of at most one point give an empty hull. |
| `BruteForceHull.CollinearKeepsEveryPoint` | submission.cpp:289-298 | When every point lies on one line, the hull holds every input location. |
| `BruteForceHull.EndpointIffOneSide` | submission.cpp:272-300 | A point is kept exactly when it ends some pair whose line has every input point weakly on one side. |
| `Merge.Rightmost` | submission.cpp:197-199 | The returned index is in range and has the largest x. Every earlier index has a strictly smaller x, so it is the first such index. |
| `Merge.Leftmost` | submission.cpp:200-202 | The returned index is in range and has the smallest x. It is the first such index. |
| `Merge.Advance` | submission.cpp:217-219 | A walk that ends stops at an in-range index where the turn to the next point is strictly counter-clockwise. |
| `Merge.Retreat` | submission.cpp:222-225 | A walk that ends stops at an in-range index where the turn to the previous point is strictly clockwise. |
| `Merge.AdvanceStopsAtFirst` | submission.cpp:217-219 | A forward walk that ends stops at the FIRST index reached from its start where the loop condition fails: it is s steps ahead, for some s within the fuel, and the condition `orientation(...) >= 0` holds at each of the s indices before it. |
| `Merge.AdvanceReachesFirst` | submission.cpp:217-219 | Conversely, when the first index where the loop condition fails is s steps ahead and the fuel covers s steps, the forward walk returns exactly that index. |
| `Merge.RetreatStopsAtFirst` | submission.cpp:222-225 | A backward walk that ends stops at the first index reached going backward where `orientation(...) <= 0` fails, within the fuel, and the condition holds at every index before it. |
| `Merge.RetreatReachesFirst` | submission.cpp:222-225 | Conversely, when the first failing index going backward is s steps away and the fuel covers s steps, the backward walk returns exactly that index. |
| `Merge.UpperTangent` | submission.cpp:205-226 | On exit, the loop conditions of both walks fail at the returned pair: `orientation(right[r], left[l], left[l+1]) < 0` and `orientation(left[l], right[r], right[r-1]) > 0`. |
| `Merge.LowerTangent` | submission.cpp:229-243 | On exit, the mirrored conditions hold at the returned pair. |
| `Merge.Arc` | submission.cpp:250-262 | The arc from `from` to `to` walks forward modulo the hull size. It has `Steps + 1` points, each read from the hull at `(from + k) % n`, and never more than the hull's size. |
| `Merge.AheadIsMod` | submission.cpp:253 | The forward index used by `Arc` is the source's `(from + k) % n`. |
| `Merge.MergeHulls` | submission.cpp:191-264 | A finished merge is the left arc from the upper to the lower tangent point followed by the right arc from the lower to the upper tangent point, at pairs satisfying the two exit conditions. It has at most n1 + n2 points, all taken from the input hulls. An empty hull gives `None`. |
| `Merge.MergeHullsMoreFuel` | submission.cpp:213-243 | A merge that finishes with some fuel gives the same hull with any larger fuel. |
| `Merge.MergeWithOnePointHullSpins` | submission.cpp:217-225 | When either hull has one point, the merge never finishes. |
| `DivideAndConquerHull.Split` | submission.cpp:331-340 | For more than five points, the halves at `size / 2` concatenate back to the input. Each half has at least three points and fewer points than the input. |
| `DivideAndConquerHull.HullDnc` | submission.cpp:325-347 | Five points or fewer give exactly the brute-force hull. A finished hull holds only input points and is no longer than the input. |
| `DivideAndConquerHull.HullDncMoreFuel` | submission.cpp:325-347 | A hull that finishes with some fuel is the same with any larger fuel. |
| `Area.ShoelaceIsClosedChain` | submission.cpp:352-356 | The loop's sum is the open chain of cross terms plus the closing edge from the last point to the first. |
| `Area.AreaOfAtMostTwoPoints` | submission.cpp:350-358 | Two points or fewer enclose area 0. |
| `Area.AreaRotationInvariant` | submission.cpp:350-358 | Starting the hull at any other vertex leaves the sum and the area unchanged. |
| `Area.AreaReversalInvariant` | submission.cpp:350-358 | Reversing the hull negates the sum and leaves the area unchanged. |
| `Area.UnitSquareArea` | submission.cpp:350-358 | The unit square has area exactly 1. |
| `Graph.DistanceMatrix` | submission.cpp:151-159 | The matrix handed to `floyds` is n×n and non-negative. |
| `Graph.InitGraph` | submission.cpp:151-159 | The fill loops give an n×n matrix with INF on the diagonal. For i < j, both `[i][j]` and `[j][i]` hold `distance(points[i], points[j])`. |
| `Graph.RoundsBounds` | submission.cpp:137-148 | No pass raises an entry. Non-negative matrices stay non-negative. Matrices with no entry above INF keep that property. |
| `Graph.PivotInPlace` | submission.cpp:139-146 | The in-place pass never raises an entry. On a non-negative matrix it keeps every entry non-negative, every relaxation sum it forms fits in a 32-bit `int`, and reading already-updated entries gives the same result as the functional pass. |
| `Graph.Floyd` | submission.cpp:137-148 | `floyds` never raises an entry. On a non-negative matrix it keeps every entry non-negative and computes the closure through every pivot. |
| `Graph.GenerateGraph` | submission.cpp:151-162 | `generateGraph` is the closure of the distance matrix. |
| `Graph.RelaxationFitsInt32` | submission.cpp:143-144 | When both hops are non-negative and below INF, their sum is non-negative and below 2·INF, which fits in a 32-bit `int`. `Graph.PivotInPlace` applies this to the matrix it updates, at every relaxation, and keeps that matrix non-negative. |
| `Graph.ClosureIsTriangleClosed` | submission.cpp:137-148 | After all pivots, on a matrix with entries between 0 and INF, nothing has grown. Every entry is at most `d[i][m] + d[m][j]` whenever both hops are below INF. |
| `Graph.ClosureRepairsTriangleViolation` | submission.cpp:143-144 | Where two finite hops are shorter than the direct entry, the closure lowers that entry to at most their sum. |
| `Graph.RoundedDiagonalExample` | submission.cpp:133-148 | With distances 1, 1 and 3, as the rounded distances of (0,0), (1,1), (2,2), the closure lowers 3 to at most 2. |
| `Graph.ClosureKeepsMetricOffDiagonal` | submission.cpp:137-148 | When the off-diagonal entries already obey the triangle inequality, the closure leaves them unchanged. |
| `Graph.SumGraph` | submission.cpp:166-181 | The loops return the sum of the entries above the diagonal that are not INF. |
| `Graph.UpperSumFacts` | submission.cpp:166-181 | The sum depends only on the entries above the diagonal. It is non-negative for non-negative matrices and 0 for n ≤ 1. |
| `Graph.MetricRoadCostUnchanged` | submission.cpp:151-181 | For symmetric distances that obey the triangle inequality, the road sum of the closed matrix equals the road sum of the raw distances. |
| `Search.Subset` | submission.cpp:375-378 | The subset is no longer than the input and holds only input points. |
| `Search.CollectSubset` | submission.cpp:375-378 | The push loop builds exactly the points whose bit is set, in input order. |
| `Search.SetBits` | submission.cpp:377 | The selected indices are in range, have their bit set, strictly increase, and include every set bit below n. |
| `Search.SubsetKeepsOrder` | submission.cpp:375-378 | The subset's k-th point is the input point at the k-th selected index, so subsets keep input order. |
| `Search.SubsetMembership` | submission.cpp:375-378 | A point is in the subset exactly when some index holding it has its bit set. |
| `Search.LastMaskSelectsAll` | submission.cpp:373-378 | The last mask visited, 2^n - 1, selects every point, in order. |
| `Search.EveryChoiceHasAMask` | submission.cpp:373-378 | Every non-empty choice of indices is selected by some mask in the loop's range 1 .. 2^n - 1, whose bits are exactly the choice. |
| `Search.Evaluate` | submission.cpp:375-394 | A skipped subset has a truncated land cost above the budget. A priced subset has its land cost within budget, and its total is land plus roads. |
| `Search.Keep` | submission.cpp:399-404 | The best plan changes only to a feasible plan that is strictly more expensive. After the step, the best plan costs at least as much as any feasible plan of this mask. |
| `Search.ConsiderMask` | submission.cpp:375-404 | The loop body gives `None` exactly when the hull does not finish. Otherwise it gives the selection step applied to this mask's evaluation. |
| `Search.FindOptimalPlan` | submission.cpp:364-405 | The search fails to finish exactly when some mask's hull diverges. Otherwise it returns the optimal plan: no feasible mask costs more, and the plan is either the empty plan or the plan of the first mask reaching its cost, with 0 < cost ≤ budget. |
| `Search.FirstBestIsNoCheaper` | submission.cpp:399-404 | The first mask reaching the best cost costs at least as much as any optimal plan. |
| `Search.OptimalIsUnique` | submission.cpp:399-404 | At most one plan is optimal, so ties are broken deterministically toward the lowest mask. |
| `Search.CostsNonNegative` | submission.cpp:382-391 | With non-negative prices, both costs of a priced plan are non-negative. |
| `Search.DevelopmentPlan` | submission.cpp:364-405 | With `getHullDNC` as the hull procedure, the search has the same outcome. With five points or fewer it always finishes. |
| `Search.FlatHullLandCost` | submission.cpp:380-384 | A hull of at most two points costs no land, whatever the price. |
| `Search.SinglePointCostsNothing` | submission.cpp:375-394 | With a non-negative budget, a one-point subset whose hull has at most two points is priced, at total 0. |
| `Search.TwoPointPlan` | submission.cpp:375-394 | With a non-negative budget, a two-point subset whose hull has at most two points is priced with land 0. Its road cost is their distance times the road price. |

## Left out

- Reading points from a file, the interactive prompt, `main`, `operator<<` and all output (submission.cpp:29-33, 45-130, 409-441). These are I/O.
- The `chrono` timing (submission.cpp:371, 406-407). It measures wall-clock time only.
- The `sqrt` and `round` inside `distance` (submission.cpp:133-135). Distances are a parameter; only its non-negativity is assumed, plus symmetry where a lemma needs it.
- The centroid `mid` and the angular comparator (submission.cpp:307-320). They are floating point in global state, and the comparator is not a strict weak order. The sort is any permutation.
- Non-integer coordinates (submission.cpp:55-59, 185, 274-291, 355). The model is exact only for integer-valued inputs. On fractional coordinates the source differs from it in three places. `orientation` truncates a fractional cross product, so (0,0), (1.9,0), (1.9,0.9) gives -1 in the source. The line test mixes truncated endpoints with untruncated points. The area is a double sum.
- 32-bit limits (submission.cpp:185, 283-285, 382, 384). `orientation`, the land area and the land cost each convert a double to `int`, which is undefined when the value is out of range; `Util.TruncToInt` truncates with no bound. The line test computes `a1`, `b1` and `c` in `int` arithmetic, where `c` can overflow. Integers here are unbounded.
- `1 << n` for n ≥ 31 (submission.cpp:373, 377). The model uses the exact `2^n`.
- The conversion of the budget from a double to an `int` before the call (submission.cpp:364). The model takes the `int` budget as given.
- Rounding of floating-point sums and products. Costs are exact reals.
- Merge.UpperTangent: the walks carry a fuel bound. A walk that never ends is `None` for every fuel, and the model cannot tell it apart from one that needs more fuel than was given.
- Merge.MergeHulls: an empty input hull is an out-of-range access in the source. Here it gives `None`.
- Search.FindOptimalPlan: a run that does not terminate is reported as `None`. No output is modelled for it.
