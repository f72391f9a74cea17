/** `findOptimalDevelopmentPlan`: every non-empty subset of the points, chosen
    by a bit mask, is priced (land by hull area, roads by the closed distance
    matrix), and the feasible subset of greatest total cost wins. */
module Search {
  import opened Util
  import opened Geometry
  import opened BruteForceHull
  import opened DivideAndConquerHull
  import opened Area
  import opened Graph

  // ---------------------------------------------------------------------------
  // Masks and subsets
  // ---------------------------------------------------------------------------

  /** Bit i of mask is set: `mask & (1 << i)` is non-zero. */
  predicate Bit(mask: nat, i: nat)
    decreases i
  {
    if i == 0 then mask % 2 == 1 else Bit(mask / 2, i - 1)
  }

  /** The points whose bit is set in `mask`, in input order. */
  function Subset(points: seq<Point>, mask: nat): (s: seq<Point>)
    ensures |s| <= |points|
    ensures forall p :: p in s ==> p in points
  {
    if |points| == 0 then []
    else
      var last := |points| - 1;
      var front := Subset(points[..last], mask);
      assert forall p :: p in front ==> p in points by {
        forall p | p in points[..last] ensures p in points { }
      }
      front + (if Bit(mask, last) then [points[last]] else [])
  }

  /** The inner loop of step 1: push `points[i]` for each set bit i. */
  method CollectSubset(points: seq<Point>, mask: nat) returns (s: seq<Point>)
    ensures s == Subset(points, mask)
  {
    s := [];
    var i := 0;
    while i < |points|
      invariant 0 <= i <= |points|
      invariant s == Subset(points[..i], mask)
    {
      assert points[..i + 1][..i] == points[..i];
      if Bit(mask, i) {
        s := s + [points[i]];
      }
      i := i + 1;
    }
    assert points[..|points|] == points;
  }

  /** A point is in the subset exactly when some index holding it has its bit
      set. */
  lemma {:induction false} SubsetMembership(points: seq<Point>, mask: nat, p: Point)
    ensures p in Subset(points, mask) <==>
            exists i :: 0 <= i < |points| && Bit(mask, i) && points[i] == p
  {
    if |points| > 0 {
      var last := |points| - 1;
      SubsetMembership(points[..last], mask, p);
      if p in Subset(points, mask) && p !in Subset(points[..last], mask) {
        assert Bit(mask, last) && points[last] == p;
      }
      if i :| 0 <= i < |points| && Bit(mask, i) && points[i] == p {
        if i < last {
          assert points[..last][i] == p;
        }
      }
    }
  }

  /** The indices below n whose bit is set, in increasing order. */
  function SetBits(mask: nat, n: nat): (idx: seq<nat>)
    ensures forall k :: 0 <= k < |idx| ==> idx[k] < n && Bit(mask, idx[k])
    ensures forall a, b :: 0 <= a < b < |idx| ==> idx[a] < idx[b]
    ensures forall i :: 0 <= i < n && Bit(mask, i) ==> i in idx
  {
    if n == 0 then []
    else SetBits(mask, n - 1) + (if Bit(mask, n - 1) then [n - 1] else [])
  }

  /** The subset keeps input order: its k-th point is the point at the k-th
      selected index, and those indices increase. */
  lemma {:induction false} SubsetKeepsOrder(points: seq<Point>, mask: nat)
    ensures |Subset(points, mask)| == |SetBits(mask, |points|)|
    ensures forall k :: 0 <= k < |Subset(points, mask)| ==>
              Subset(points, mask)[k] == points[SetBits(mask, |points|)[k]]
  {
    if |points| > 0 {
      var last := |points| - 1;
      SubsetKeepsOrder(points[..last], mask);
      var front, idx := Subset(points[..last], mask), SetBits(mask, last);
      forall k | 0 <= k < |front|
        ensures front[k] == points[idx[k]]
      {
        assert front[k] == points[..last][idx[k]];
      }
    }
  }

  /** When every bit below |points| is set, the subset is all of the points,
      in order. */
  lemma {:induction false} SubsetAllBits(points: seq<Point>, mask: nat)
    requires forall i :: 0 <= i < |points| ==> Bit(mask, i)
    ensures Subset(points, mask) == points
  {
    if |points| > 0 {
      var last := |points| - 1;
      SubsetAllBits(points[..last], mask);
      assert points[..last] + [points[last]] == points;
    }
  }

  lemma HalveOdd(q: nat)
    requires q >= 1
    ensures (2 * q - 1) % 2 == 1 && (2 * q - 1) / 2 == q - 1
  {
  }

  /** 2^n - 1 has all of its n low bits set. */
  lemma {:induction false} AllOnes(n: nat, i: nat)
    requires i < n
    ensures Bit(Pow2(n) - 1, i)
  {
    var q := Pow2(n - 1);
    assert Pow2(n) - 1 == 2 * q - 1;
    HalveOdd(q);
    if i > 0 {
      AllOnes(n - 1, i - 1);
    }
  }

  /** The last mask the loop visits, 2^n - 1, selects every point. */
  lemma {:induction false} LastMaskSelectsAll(points: seq<Point>)
    ensures Subset(points, Pow2(|points|) - 1) == points
  {
    var all: nat := Pow2(|points|) - 1;
    forall i | 0 <= i < |points| ensures Bit(all, i) {
      AllOnes(|points|, i);
    }
    SubsetAllBits(points, all);
  }

  /** The mask whose bit i is `choice[i]`. */
  function MaskOf(choice: seq<bool>): (mask: nat)
    ensures mask < Pow2(|choice|)
  {
    if |choice| == 0 then 0
    else
      var rest := MaskOf(choice[1..]);
      assert Pow2(|choice|) == 2 * Pow2(|choice| - 1);
      (if choice[0] then 1 else 0) + 2 * rest
  }

  lemma {:induction false} MaskOfBits(choice: seq<bool>, i: nat)
    requires i < |choice|
    ensures Bit(MaskOf(choice), i) == choice[i]
  {
    if i > 0 {
      assert MaskOf(choice) / 2 == MaskOf(choice[1..]);
      MaskOfBits(choice[1..], i - 1);
    }
  }

  /** The masks 1 .. 2^n - 1 cover every non-empty choice of points: whatever
      indices are chosen, one mask in range sets exactly their bits. */
  lemma {:induction false} EveryChoiceHasAMask(choice: seq<bool>)
    requires exists i :: 0 <= i < |choice| && choice[i]
    ensures 1 <= MaskOf(choice) < Pow2(|choice|)
    ensures forall i :: 0 <= i < |choice| ==> Bit(MaskOf(choice), i) == choice[i]
  {
    var mask := MaskOf(choice);
    forall i | 0 <= i < |choice| ensures Bit(mask, i) == choice[i] {
      MaskOfBits(choice, i);
    }
    var i :| 0 <= i < |choice| && choice[i];
    assert mask != 0 by {
      MaskOfBits(choice, i);
      ZeroHasNoBits(i);
    }
  }

  lemma {:induction false} ZeroHasNoBits(i: nat)
    ensures !Bit(0, i)
  {
    if i > 0 {
      ZeroHasNoBits(i - 1);
    }
  }

  // ---------------------------------------------------------------------------
  // Pricing one subset
  // ---------------------------------------------------------------------------

  /** The budget and the two unit prices. */
  datatype Prices = Prices(budget: int, landPerUnit: real, roadPerUnit: real)

  /** A priced plan: the hull of the chosen points and its three costs. */
  datatype Plan = Plan(hull: seq<Point>, landCost: int, roadCost: real, totalCost: real)

  /** What the search reports when no subset beats a total cost of 0. */
  const NoPlan: Plan := Plan([], 0, 0.0, 0.0)

  /** The outcome of the loop body for one mask: the hull did not finish
      (the program would not terminate), the land alone is over budget (the
      `continue`), or the subset was priced in full. */
  datatype Evaluation = Diverged | OverLandBudget(landCost: int) | Priced(plan: Plan)

  /** An integer amount times a price per unit, in floating point. */
  function Price(amount: int, perUnit: real): real
  {
    amount as real * perUnit
  }

  /** Steps 3 and 4: the area truncated to an int, times the price, truncated
      again. */
  function LandCost(hull: seq<Point>, landPerUnit: real): int
  {
    TruncToInt(Price(TruncToInt(HullArea(hull)), landPerUnit))
  }

  /** Steps 6 and 7 before the price: the sum of the subset's closed distance
      matrix. */
  function RoadSum(sub: seq<Point>, dist: (Point, Point) -> nat): int
  {
    UpperSum(Closure(DistanceMatrix(sub, dist)))
  }

  /** Steps 1 to 8 for one mask. A priced plan is within the land budget and
      costs its land plus its roads. */
  function Evaluate(points: seq<Point>, mask: nat, prices: Prices, dist: (Point, Point) -> nat,
                    hullOf: seq<Point> -> Option<seq<Point>>): (e: Evaluation)
    ensures e.OverLandBudget? ==> e.landCost > prices.budget
    ensures e.Priced? ==> e.plan.landCost <= prices.budget
    ensures e.Priced? ==> e.plan.totalCost == e.plan.landCost as real + e.plan.roadCost
  {
    var sub := Subset(points, mask);
    match hullOf(sub)
    case None => Diverged
    case Some(hull) =>
      var land := LandCost(hull, prices.landPerUnit);
      if land > prices.budget then OverLandBudget(land)
      else
        var road := Price(RoadSum(sub, dist), prices.roadPerUnit);
        Priced(Plan(hull, land, road, land as real + road))
  }

  /** Some mask in the loop's range has a hull that does not finish. */
  ghost predicate SomeMaskDiverges(points: seq<Point>, prices: Prices, dist: (Point, Point) -> nat,
                                   hullOf: seq<Point> -> Option<seq<Point>>)
  {
    exists mask :: 1 <= mask < Pow2(|points|) && Evaluate(points, mask, prices, dist, hullOf).Diverged?
  }

  /** A plan within the whole budget. */
  predicate Feasible(e: Evaluation, budget: int)
  {
    e.Priced? && e.plan.totalCost <= budget as real
  }

  /** The plan the search must report: no feasible mask costs more, and unless
      it is `NoPlan` it is the plan of the first mask that reaches its cost,
      which is positive and within budget. */
  ghost predicate IsOptimal(points: seq<Point>, prices: Prices, dist: (Point, Point) -> nat,
                            hullOf: seq<Point> -> Option<seq<Point>>, plan: Plan)
  {
    (forall m :: 1 <= m < Pow2(|points|) && Feasible(Evaluate(points, m, prices, dist, hullOf), prices.budget)
       ==> Evaluate(points, m, prices, dist, hullOf).plan.totalCost <= plan.totalCost)
    && (plan == NoPlan ||
        exists mask :: 1 <= mask < Pow2(|points|) && FirstBest(points, prices, dist, hullOf, plan, mask))
  }

  /** `mask` prices to `plan`, which is positive and within budget, and every
      earlier feasible mask is strictly cheaper. */
  ghost predicate FirstBest(points: seq<Point>, prices: Prices, dist: (Point, Point) -> nat,
                            hullOf: seq<Point> -> Option<seq<Point>>, plan: Plan, mask: nat)
  {
    Evaluate(points, mask, prices, dist, hullOf) == Priced(plan)
    && 0.0 < plan.totalCost <= prices.budget as real
    && forall m :: 1 <= m < mask && Feasible(Evaluate(points, m, prices, dist, hullOf), prices.budget)
         ==> Evaluate(points, m, prices, dist, hullOf).plan.totalCost < plan.totalCost
  }

  // ---------------------------------------------------------------------------
  // The search
  // ---------------------------------------------------------------------------

  /** Step 9: the plan of this mask replaces the best so far when it is
      feasible and strictly more expensive. */
  function Keep(e: Evaluation, budget: int, best: Plan): (r: Plan)
    ensures r == best || (Feasible(e, budget) && r == e.plan && r.totalCost > best.totalCost)
    ensures Feasible(e, budget) ==> e.plan.totalCost <= r.totalCost
  {
    if Feasible(e, budget) && e.plan.totalCost > best.totalCost then e.plan else best
  }

  /** When the hull finishes and the land is within budget, the plan is
      priced with the road sum of the subset's closed distance matrix. */
  lemma EvaluatePriced(points: seq<Point>, mask: nat, prices: Prices, dist: (Point, Point) -> nat,
                       hullOf: seq<Point> -> Option<seq<Point>>, hull: seq<Point>, roadSum: int)
    requires hullOf(Subset(points, mask)) == Some(hull)
    requires LandCost(hull, prices.landPerUnit) <= prices.budget
    requires roadSum == RoadSum(Subset(points, mask), dist)
    ensures Evaluate(points, mask, prices, dist, hullOf) ==
            Priced(Plan(hull, LandCost(hull, prices.landPerUnit), Price(roadSum, prices.roadPerUnit),
                        LandCost(hull, prices.landPerUnit) as real + Price(roadSum, prices.roadPerUnit)))
  {
  }

  /** The body of the loop for one mask, steps 1 to 9. It reports `None` when
      the hull does not finish, and otherwise the best plan after this mask. */
  method ConsiderMask(points: seq<Point>, mask: nat, prices: Prices, dist: (Point, Point) -> nat,
                      hullOf: seq<Point> -> Option<seq<Point>>, best: Plan)
    returns (next: Option<Plan>)
    ensures next.None? <==> Evaluate(points, mask, prices, dist, hullOf).Diverged?
    ensures next.Some? ==> next.value == Keep(Evaluate(points, mask, prices, dist, hullOf), prices.budget, best)
  {
    var sub := CollectSubset(points, mask);
    var hull := hullOf(sub);
    if hull.None? {
      return None;
    }
    var landArea := TruncToInt(HullArea(hull.value));
    var landCost := TruncToInt(Price(landArea, prices.landPerUnit));
    if landCost > prices.budget {
      return Some(best);
    }
    var graph := GenerateGraph(sub, dist);
    var roadSum := SumGraph(graph);
    var roadCost := Price(roadSum, prices.roadPerUnit);
    var cost := landCost as real + roadCost;
    EvaluatePriced(points, mask, prices, dist, hullOf, hull.value, roadSum);
    if cost <= prices.budget as real && cost > best.totalCost {
      next := Some(Plan(hull.value, landCost, roadCost, cost));
    } else {
      next := Some(best);
    }
  }

  /** `findOptimalDevelopmentPlan`. `None` stands for a run that never ends
      because some subset's hull does not finish; otherwise the result is the
      optimal plan. A subset is kept only when its total is within budget and
      strictly above the best so far, which starts at 0. */
  method FindOptimalPlan(points: seq<Point>, prices: Prices, dist: (Point, Point) -> nat,
                         hullOf: seq<Point> -> Option<seq<Point>>)
    returns (result: Option<Plan>)
    ensures result.None? <==> SomeMaskDiverges(points, prices, dist, hullOf)
    ensures result.Some? ==> IsOptimal(points, prices, dist, hullOf, result.value)
  {
    var best := NoPlan;
    ghost var bestMask := 0;
    var limit := Pow2(|points|);
    var mask := 1;
    while mask < limit
      invariant 1 <= mask <= limit
      invariant forall m :: 1 <= m < mask ==> !Evaluate(points, m, prices, dist, hullOf).Diverged?
      invariant forall m :: 1 <= m < mask && Feasible(Evaluate(points, m, prices, dist, hullOf), prices.budget)
                  ==> Evaluate(points, m, prices, dist, hullOf).plan.totalCost <= best.totalCost
      invariant best.totalCost >= 0.0
      invariant best == NoPlan ||
                (1 <= bestMask < mask && FirstBest(points, prices, dist, hullOf, best, bestMask))
    {
      var next := ConsiderMask(points, mask, prices, dist, hullOf, best);
      if next.None? {
        return None;
      }
      if next.value != best {
        bestMask := mask;
      }
      best := next.value;
      mask := mask + 1;
    }
    result := Some(best);
  }

  // ---------------------------------------------------------------------------
  // Properties of the search
  // ---------------------------------------------------------------------------

  /** An optimal plan other than `NoPlan` costs at least as much as any other
      optimal plan. */
  lemma FirstBestIsNoCheaper(points: seq<Point>, prices: Prices, dist: (Point, Point) -> nat,
                             hullOf: seq<Point> -> Option<seq<Point>>, a: Plan, ma: nat, b: Plan)
    requires 1 <= ma < Pow2(|points|) && FirstBest(points, prices, dist, hullOf, a, ma)
    requires IsOptimal(points, prices, dist, hullOf, b)
    ensures a.totalCost <= b.totalCost
  {
    assert Feasible(Evaluate(points, ma, prices, dist, hullOf), prices.budget);
  }

  /** At most one plan is optimal: the answer does not depend on how the loop
      reached it. */
  lemma OptimalIsUnique(points: seq<Point>, prices: Prices, dist: (Point, Point) -> nat,
                        hullOf: seq<Point> -> Option<seq<Point>>, a: Plan, b: Plan)
    requires IsOptimal(points, prices, dist, hullOf, a)
    requires IsOptimal(points, prices, dist, hullOf, b)
    ensures a == b
  {
    if a != NoPlan && b != NoPlan {
      var ma :| 1 <= ma < Pow2(|points|) && FirstBest(points, prices, dist, hullOf, a, ma);
      var mb :| 1 <= mb < Pow2(|points|) && FirstBest(points, prices, dist, hullOf, b, mb);
      FirstBestIsNoCheaper(points, prices, dist, hullOf, a, ma, b);
      FirstBestIsNoCheaper(points, prices, dist, hullOf, b, mb, a);
      if ma < mb {
        assert false;
      } else if mb < ma {
        assert false;
      }
    } else if a != NoPlan || b != NoPlan {
      // The plan that is not NoPlan is feasible and costs more than 0, which
      // the other plan's optimality rules out.
      assert false;
    }
  }

  lemma LandCostNonNegative(hull: seq<Point>, landPerUnit: real)
    requires landPerUnit >= 0.0
    ensures LandCost(hull, landPerUnit) >= 0
  {
    var area := TruncToInt(HullArea(hull));
    assert area >= 0;
    assert Price(area, landPerUnit) >= 0.0;
  }

  lemma RoadCostNonNegative(sub: seq<Point>, dist: (Point, Point) -> nat, roadPerUnit: real)
    requires roadPerUnit >= 0.0
    ensures Price(RoadSum(sub, dist), roadPerUnit) >= 0.0
  {
    var g := DistanceMatrix(sub, dist);
    RoundsBounds(g, |g|);
    var c := Closure(g);
    UpperSumFacts(c, c, 0);
    assert Price(UpperSum(c), roadPerUnit) >= 0.0;
  }

  /** With non-negative prices both costs of a priced plan are non-negative. */
  lemma CostsNonNegative(points: seq<Point>, mask: nat, prices: Prices, dist: (Point, Point) -> nat,
                         hullOf: seq<Point> -> Option<seq<Point>>)
    requires prices.landPerUnit >= 0.0 && prices.roadPerUnit >= 0.0
    requires Evaluate(points, mask, prices, dist, hullOf).Priced?
    ensures Evaluate(points, mask, prices, dist, hullOf).plan.landCost >= 0
    ensures Evaluate(points, mask, prices, dist, hullOf).plan.roadCost >= 0.0
  {
    var sub := Subset(points, mask);
    var hull := hullOf(sub).value;
    LandCostNonNegative(hull, prices.landPerUnit);
    RoadCostNonNegative(sub, dist, prices.roadPerUnit);
  }

  // ---------------------------------------------------------------------------
  // The search with `getHullDNC`
  // ---------------------------------------------------------------------------

  /** `getHullDNC` with a given sort and fuel, as the hull procedure of the
      search. */
  function DncHull(arrange: Arranger, fuel: nat): seq<Point> -> Option<seq<Point>>
  {
    s => HullDnc(s, arrange, fuel)
  }

  /** With at most five points every hull is brute force, so no mask
      diverges. */
  lemma SmallInputsNeverDiverge(points: seq<Point>, prices: Prices, dist: (Point, Point) -> nat,
                                arrange: Arranger, fuel: nat, mask: nat)
    requires |points| <= BruteLimit
    ensures !Evaluate(points, mask, prices, dist, DncHull(arrange, fuel)).Diverged?
  {
    var sub := Subset(points, mask);
    assert DncHull(arrange, fuel)(sub) == Some(HullBrute(sub, arrange));
  }

  /** The search as `main` runs it, with `getHullDNC` as the hull procedure.
      With five points or fewer it always finishes. */
  method DevelopmentPlan(points: seq<Point>, prices: Prices, dist: (Point, Point) -> nat,
                         arrange: Arranger, fuel: nat)
    returns (result: Option<Plan>)
    ensures result.None? <==> SomeMaskDiverges(points, prices, dist, DncHull(arrange, fuel))
    ensures result.Some? ==> IsOptimal(points, prices, dist, DncHull(arrange, fuel), result.value)
    ensures |points| <= BruteLimit ==> result.Some?
  {
    result := FindOptimalPlan(points, prices, dist, DncHull(arrange, fuel));
    if |points| <= BruteLimit {
      forall mask | 1 <= mask < Pow2(|points|)
        ensures !Evaluate(points, mask, prices, dist, DncHull(arrange, fuel)).Diverged?
      {
        SmallInputsNeverDiverge(points, prices, dist, arrange, fuel, mask);
      }
    }
  }

  /** A hull of at most two points encloses no land, whatever the price. */
  lemma FlatHullLandCost(hull: seq<Point>, landPerUnit: real)
    requires |hull| <= 2
    ensures LandCost(hull, landPerUnit) == 0
  {
    AreaOfAtMostTwoPoints(hull);
  }

  /** A single point has no roads and, with a hull of at most two points, no
      land: it is priced at 0 and so is never kept, since a plan must cost
      strictly more than the best so far. */
  lemma SinglePointCostsNothing(points: seq<Point>, mask: nat, prices: Prices, dist: (Point, Point) -> nat,
                                hullOf: seq<Point> -> Option<seq<Point>>)
    requires |Subset(points, mask)| == 1
    requires hullOf(Subset(points, mask)).Some? && |hullOf(Subset(points, mask)).value| <= 2
    requires prices.budget >= 0
    ensures Evaluate(points, mask, prices, dist, hullOf).Priced?
    ensures Evaluate(points, mask, prices, dist, hullOf).plan.totalCost == 0.0
  {
    var sub := Subset(points, mask);
    FlatHullLandCost(hullOf(sub).value, prices.landPerUnit);
    var c := Closure(DistanceMatrix(sub, dist));
    UpperSumFacts(c, c, 0);
    assert RoadSum(sub, dist) == 0;
  }

  /** The closed distance matrix of two points sums to their distance. */
  lemma TwoPointRoadSum(sub: seq<Point>, dist: (Point, Point) -> nat)
    requires |sub| == 2 && dist(sub[0], sub[1]) < INF
    ensures RoadSum(sub, dist) == dist(sub[0], sub[1])
  {
    var g := DistanceMatrix(sub, dist);
    ClosureKeepsMetricOffDiagonal(g);
    var c := Closure(g);
    assert c[0][1] == dist(sub[0], sub[1]);
    assert UpperSumFrom(c, 1) == RowSum(c, 1, 2) + UpperSumFrom(c, 2);
    assert RowSum(c, 0, 1) == c[0][1] + RowSum(c, 0, 2);
  }

  /** Two points with a hull of at most two points enclose no land, and their
      road cost is their rounded distance times the price: the closure cannot
      shorten the only edge. */
  lemma TwoPointPlan(points: seq<Point>, mask: nat, prices: Prices, dist: (Point, Point) -> nat,
                     hullOf: seq<Point> -> Option<seq<Point>>)
    requires |Subset(points, mask)| == 2
    requires hullOf(Subset(points, mask)).Some? && |hullOf(Subset(points, mask)).value| <= 2
    requires dist(Subset(points, mask)[0], Subset(points, mask)[1]) < INF
    requires prices.budget >= 0
    ensures Evaluate(points, mask, prices, dist, hullOf).Priced?
    ensures Evaluate(points, mask, prices, dist, hullOf).plan.landCost == 0
    ensures Evaluate(points, mask, prices, dist, hullOf).plan.roadCost ==
            Price(dist(Subset(points, mask)[0], Subset(points, mask)[1]), prices.roadPerUnit)
  {
    var sub := Subset(points, mask);
    FlatHullLandCost(hullOf(sub).value, prices.landPerUnit);
    TwoPointRoadSum(sub, dist);
  }
}
