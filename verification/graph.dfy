/** The road-cost side: `generateGraph` builds the complete distance matrix of
    a point set, `floyds` closes it under shortest paths, and `sumGraph` adds
    up the upper triangle. */
module Graph {
  import opened Util
  import opened Geometry

  /** `INF`: the entry that stands for "no edge". */
  const INF: int := 1000000000

  /** The largest value of a 32-bit `int`. */
  const Int32Max: int := 0x7fff_ffff

  type Matrix = seq<seq<int>>

  predicate IsSquare(d: Matrix, n: nat)
  {
    |d| == n && forall i :: 0 <= i < n ==> |d[i]| == n
  }

  predicate NonNegative(d: Matrix)
  {
    forall i, j :: 0 <= i < |d| && 0 <= j < |d[i]| ==> d[i][j] >= 0
  }

  /** No entry above INF: an entry is either a real distance below INF or INF. */
  predicate AtMostInf(d: Matrix)
  {
    forall i, j :: 0 <= i < |d| && 0 <= j < |d[i]| ==> d[i][j] <= INF
  }

  /** Every entry of `a` is at most the same entry of `b`. */
  predicate Below(a: Matrix, b: Matrix, n: nat)
    requires IsSquare(a, n) && IsSquare(b, n)
  {
    forall i, j :: 0 <= i < n && 0 <= j < n ==> a[i][j] <= b[i][j]
  }

  function Min(a: int, b: int): int
  {
    if a <= b then a else b
  }

  lemma MatrixExt(a: Matrix, b: Matrix, n: nat)
    requires IsSquare(a, n) && IsSquare(b, n)
    requires forall i, j :: 0 <= i < n && 0 <= j < n ==> a[i][j] == b[i][j]
    ensures a == b
  {
    forall i | 0 <= i < n ensures a[i] == b[i] {
      assert |a[i]| == |b[i]| == n;
    }
  }

  // ---------------------------------------------------------------------------
  // generateGraph
  // ---------------------------------------------------------------------------

  /** Entry (a, b) of the matrix `generateGraph` hands to `floyds`: INF on the
      diagonal, and the distance between the two points, the one with the
      smaller index first, everywhere else. */
  function Cell(points: seq<Point>, dist: (Point, Point) -> nat, a: nat, b: nat): int
    requires a < |points| && b < |points|
  {
    if a == b then INF
    else if a < b then dist(points[a], points[b])
    else dist(points[b], points[a])
  }

  function DistanceMatrix(points: seq<Point>, dist: (Point, Point) -> nat): (g: Matrix)
    ensures IsSquare(g, |points|)
    ensures NonNegative(g)
  {
    var n := |points|;
    seq(n, a requires 0 <= a < n => seq(n, b requires 0 <= b < n => Cell(points, dist, a, b)))
  }

  /** Whether the fill loops have reached the pair {a, b} once they are at
      row i, column j. */
  predicate Filled(a: nat, b: nat, i: nat, j: nat)
  {
    var lo, hi := Min(a, b), if a < b then b else a;
    lo < i || (lo == i && hi < j)
  }

  /** The two loops of `generateGraph` that fill the matrix. The diagonal keeps
      INF, and each pair i < j gets its distance in both directions, so the
      matrix is symmetric whatever the distance function does. */
  method InitGraph(points: seq<Point>, dist: (Point, Point) -> nat) returns (g: Matrix)
    ensures IsSquare(g, |points|)
    ensures forall i :: 0 <= i < |points| ==> g[i][i] == INF
    ensures forall i, j :: 0 <= i < j < |points| ==>
              g[i][j] == dist(points[i], points[j]) && g[j][i] == dist(points[i], points[j])
    ensures g == DistanceMatrix(points, dist)
  {
    var n := |points|;
    var row := seq(n, _ => INF);
    g := seq(n, _ => row);
    var i := 0;
    while i < n
      invariant 0 <= i <= n
      invariant IsSquare(g, n)
      invariant forall a, b :: 0 <= a < n && 0 <= b < n ==>
        g[a][b] == if a != b && Filled(a, b, i, 0) then Cell(points, dist, a, b) else INF
    {
      var j := i + 1;
      while j < n
        invariant i + 1 <= j <= n
        invariant IsSquare(g, n)
        invariant forall a, b :: 0 <= a < n && 0 <= b < n ==>
          g[a][b] == if a != b && Filled(a, b, i, j) then Cell(points, dist, a, b) else INF
      {
        var d := dist(points[i], points[j]);
        g := g[i := g[i][j := d]];
        g := g[j := g[j][i := d]];
        j := j + 1;
      }
      i := i + 1;
    }
    MatrixExt(g, DistanceMatrix(points, dist), n);
  }

  // ---------------------------------------------------------------------------
  // floyds
  // ---------------------------------------------------------------------------

  /** The update of entry (i, j) through pivot k: only when both hops are below
      INF, and then to the smaller of the entry and the two hops. */
  function Relax(d: Matrix, k: nat, i: nat, j: nat): int
    requires IsSquare(d, |d|) && i < |d| && j < |d| && k < |d|
  {
    if d[i][k] < INF && d[k][j] < INF then Min(d[i][j], d[i][k] + d[k][j]) else d[i][j]
  }

  /** One pass of the outer loop, every entry relaxed through pivot k against
      the matrix as it was before the pass. */
  function Pivot(d: Matrix, k: nat): (r: Matrix)
    requires IsSquare(d, |d|) && k < |d|
    ensures IsSquare(r, |d|)
    ensures forall i, j :: 0 <= i < |d| && 0 <= j < |d| ==> r[i][j] == Relax(d, k, i, j)
  {
    var n := |d|;
    seq(n, i requires 0 <= i < n => seq(n, j requires 0 <= j < n => Relax(d, k, i, j)))
  }

  /** The matrix after the passes for pivots 0 .. k-1. */
  function Rounds(d: Matrix, k: nat): (r: Matrix)
    requires IsSquare(d, |d|) && k <= |d|
    ensures IsSquare(r, |d|)
  {
    if k == 0 then d else Pivot(Rounds(d, k - 1), k - 1)
  }

  /** No pass raises an entry, and the passes keep entries non-negative and at
      most INF. */
  lemma {:induction false} RoundsBounds(d: Matrix, k: nat)
    requires IsSquare(d, |d|) && k <= |d|
    ensures Below(Rounds(d, k), d, |d|)
    ensures NonNegative(d) ==> NonNegative(Rounds(d, k))
    ensures AtMostInf(d) ==> AtMostInf(Rounds(d, k))
  {
    if k > 0 {
      RoundsBounds(d, k - 1);
      var prev := Rounds(d, k - 1);
      assert Below(Pivot(prev, k - 1), prev, |d|);
    }
  }

  /** What `floyds` leaves in the matrix: the passes for every pivot. */
  function Closure(d: Matrix): (r: Matrix)
    requires IsSquare(d, |d|)
    ensures IsSquare(r, |d|)
  {
    Rounds(d, |d|)
  }

  /** With no negative entry, a pass leaves the pivot's own row and column
      alone: going through k and back costs d[k][k] >= 0. */
  lemma PivotKeepsPivotLines(d: Matrix, k: nat, a: nat)
    requires IsSquare(d, |d|) && k < |d| && a < |d|
    requires NonNegative(d)
    ensures Relax(d, k, a, k) == d[a][k]
    ensures Relax(d, k, k, a) == d[k][a]
  {
  }

  /** One pass of `floyds`, done in place as the source does. It agrees with
      `Pivot` as long as no entry is negative; in any case no entry grows. */
  method PivotInPlace(d0: Matrix, k: nat) returns (d: Matrix)
    requires IsSquare(d0, |d0|) && k < |d0|
    ensures IsSquare(d, |d0|)
    ensures Below(d, d0, |d0|)
    ensures NonNegative(d0) ==> NonNegative(d)
    ensures NonNegative(d0) ==> d == Pivot(d0, k)
  {
    var n := |d0|;
    d := d0;
    var i := 0;
    while i < n
      invariant 0 <= i <= n
      invariant IsSquare(d, n)
      invariant Below(d, d0, n)
      invariant NonNegative(d0) ==> NonNegative(d)
      invariant NonNegative(d0) ==> forall a, b :: 0 <= a < n && 0 <= b < n ==>
        d[a][b] == (if a < i then Relax(d0, k, a, b) else d0[a][b])
    {
      var j := 0;
      while j < n
        invariant 0 <= j <= n
        invariant IsSquare(d, n)
        invariant Below(d, d0, n)
        invariant NonNegative(d0) ==> NonNegative(d)
        invariant NonNegative(d0) ==> forall a, b :: 0 <= a < n && 0 <= b < n ==>
          d[a][b] == (if a < i || (a == i && b < j) then Relax(d0, k, a, b) else d0[a][b])
      {
        if NonNegative(d0) {
          PivotKeepsPivotLines(d0, k, i);
          PivotKeepsPivotLines(d0, k, j);
        }
        if d[i][k] < INF && d[k][j] < INF {
          if NonNegative(d0) {
            RelaxationFitsInt32(d, k, i, j);
          }
          d := d[i := d[i][j := Min(d[i][j], d[i][k] + d[k][j])]];
        }
        j := j + 1;
      }
      i := i + 1;
    }
    if NonNegative(d0) {
      MatrixExt(d, Pivot(d0, k), n);
    }
  }

  lemma BelowTransitive(a: Matrix, b: Matrix, c: Matrix, n: nat)
    requires IsSquare(a, n) && IsSquare(b, n) && IsSquare(c, n)
    requires Below(a, b, n) && Below(b, c, n)
    ensures Below(a, c, n)
  {
  }

  /** One turn of the loop in `Floyd`: a pass after the first k passes gives
      the first k + 1. */
  lemma FloydStep(d0: Matrix, d: Matrix, next: Matrix, k: nat)
    requires IsSquare(d0, |d0|) && IsSquare(d, |d0|) && k < |d0|
    requires NonNegative(d0) ==> d == Rounds(d0, k)
    requires NonNegative(d) ==> next == Pivot(d, k)
    ensures NonNegative(d0) ==> next == Rounds(d0, k + 1)
  {
    RoundsBounds(d0, k);
  }

  /** `floyds`: the triple loop, pivot by pivot. It never raises an entry, and
      with no negative entry it computes `Closure`. */
  method Floyd(d0: Matrix) returns (d: Matrix)
    requires IsSquare(d0, |d0|)
    ensures IsSquare(d, |d0|)
    ensures Below(d, d0, |d0|)
    ensures NonNegative(d0) ==> NonNegative(d)
    ensures NonNegative(d0) ==> d == Closure(d0)
  {
    var n := |d0|;
    d := d0;
    var k := 0;
    while k < n
      invariant 0 <= k <= n
      invariant IsSquare(d, n)
      invariant Below(d, d0, n)
      invariant NonNegative(d0) ==> NonNegative(d)
      invariant NonNegative(d0) ==> d == Rounds(d0, k)
    {
      var next := PivotInPlace(d, k);
      BelowTransitive(next, d, d0, n);
      FloydStep(d0, d, next, k);
      d := next;
      k := k + 1;
    }
  }

  /** `generateGraph`: the distance matrix closed by `floyds`. */
  method GenerateGraph(points: seq<Point>, dist: (Point, Point) -> nat) returns (g: Matrix)
    ensures IsSquare(g, |points|)
    ensures g == Closure(DistanceMatrix(points, dist))
  {
    var init := InitGraph(points, dist);
    g := Floyd(init);
  }

  // ---------------------------------------------------------------------------
  // What the closure achieves
  // ---------------------------------------------------------------------------

  /** Entry (i, j) is no longer than any route through m whose hops are both
      below INF. */
  ghost predicate ClosedThrough(d: Matrix, m: nat)
    requires IsSquare(d, |d|) && m < |d|
  {
    forall i, j :: 0 <= i < |d| && 0 <= j < |d| && d[i][m] < INF && d[m][j] < INF
      ==> d[i][j] <= d[i][m] + d[m][j]
  }

  ghost predicate ClosedBelow(d: Matrix, k: nat)
    requires IsSquare(d, |d|) && k <= |d|
  {
    forall m :: 0 <= m < k ==> ClosedThrough(d, m)
  }

  /** One pass keeps every earlier pivot closed and closes pivot k. */
  lemma PivotExtendsClosure(d: Matrix, k: nat)
    requires IsSquare(d, |d|) && k < |d|
    requires NonNegative(d) && AtMostInf(d)
    requires ClosedBelow(d, k)
    ensures ClosedBelow(Pivot(d, k), k + 1)
  {
    var r := Pivot(d, k);
    forall m, i, j | 0 <= m < k + 1 && 0 <= i < |d| && 0 <= j < |d| && r[i][m] < INF && r[m][j] < INF
      ensures r[i][j] <= r[i][m] + r[m][j]
    {
      PivotStep(d, k, m, i, j);
    }
  }

  /** The case analysis behind `PivotExtendsClosure`, for one entry and one
      earlier pivot m (or m = k). */
  lemma PivotStep(d: Matrix, k: nat, m: nat, i: nat, j: nat)
    requires IsSquare(d, |d|) && k < |d| && m <= k && i < |d| && j < |d|
    requires NonNegative(d) && AtMostInf(d)
    requires ClosedBelow(d, k)
    requires Pivot(d, k)[i][m] < INF && Pivot(d, k)[m][j] < INF
    ensures Pivot(d, k)[i][j] <= Pivot(d, k)[i][m] + Pivot(d, k)[m][j]
  {
    var r := Pivot(d, k);
    if m == k {
      PivotKeepsPivotLines(d, k, i);
      PivotKeepsPivotLines(d, k, j);
    } else {
      assert ClosedThrough(d, m);
      var viaIM := d[i][k] < INF && d[k][m] < INF && d[i][k] + d[k][m] < d[i][m];
      var viaMJ := d[m][k] < INF && d[k][j] < INF && d[m][k] + d[k][j] < d[m][j];
      if !viaIM && !viaMJ {
        assert r[i][m] == d[i][m] && r[m][j] == d[m][j];
      } else if viaIM && !viaMJ {
        assert r[i][m] == d[i][k] + d[k][m] && r[m][j] == d[m][j];
        assert d[k][j] <= d[k][m] + d[m][j];
      } else if !viaIM && viaMJ {
        assert r[i][m] == d[i][m] && r[m][j] == d[m][k] + d[k][j];
        assert d[i][k] <= d[i][m] + d[m][k];
      } else {
        assert r[i][m] == d[i][k] + d[k][m] && r[m][j] == d[m][k] + d[k][j];
      }
    }
  }

  lemma {:induction false} RoundsClosedBelow(d: Matrix, k: nat)
    requires IsSquare(d, |d|) && k <= |d|
    requires NonNegative(d) && AtMostInf(d)
    ensures ClosedBelow(Rounds(d, k), k)
  {
    if k > 0 {
      RoundsClosedBelow(d, k - 1);
      RoundsBounds(d, k - 1);
      PivotExtendsClosure(Rounds(d, k - 1), k - 1);
    }
  }

  /** After every pivot, for a matrix with entries between 0 and INF: every
      entry is at most the sum of any two hops that are both below INF (the
      triangle inequality), and no entry has grown. */
  lemma ClosureIsTriangleClosed(d: Matrix)
    requires IsSquare(d, |d|) && NonNegative(d) && AtMostInf(d)
    ensures Below(Closure(d), d, |d|)
    ensures forall i, j, m :: 0 <= i < |d| && 0 <= j < |d| && 0 <= m < |d|
              && Closure(d)[i][m] < INF && Closure(d)[m][j] < INF
              ==> Closure(d)[i][j] <= Closure(d)[i][m] + Closure(d)[m][j]
  {
    RoundsClosedBelow(d, |d|);
    RoundsBounds(d, |d|);
    var c := Closure(d);
    forall i, j, m | 0 <= i < |d| && 0 <= j < |d| && 0 <= m < |d| && c[i][m] < INF && c[m][j] < INF
      ensures c[i][j] <= c[i][m] + c[m][j]
    {
      assert ClosedThrough(c, m);
    }
  }

  /** Every relaxation that `floyds` performs adds two hops that are each in
      [0, INF), so the sum stays below 2 * INF and fits a 32-bit `int`.
      `PivotInPlace` applies this to the matrix it is updating, at every
      relaxation, which stays non-negative throughout. */
  lemma RelaxationFitsInt32(d: Matrix, k: nat, i: nat, j: nat)
    requires IsSquare(d, |d|) && k < |d| && i < |d| && j < |d|
    requires NonNegative(d)
    requires d[i][k] < INF && d[k][j] < INF
    ensures 0 <= d[i][k] + d[k][j] < 2 * INF <= Int32Max
  {
  }

  /** Rounded distances need not obey the triangle inequality, and then the
      closure does change the matrix: an entry longer than some two-hop route
      below INF comes out strictly shorter. */
  lemma ClosureRepairsTriangleViolation(d: Matrix, i: nat, j: nat, m: nat)
    requires IsSquare(d, |d|) && NonNegative(d) && AtMostInf(d)
    requires i < |d| && j < |d| && m < |d|
    requires d[i][m] < INF && d[m][j] < INF && d[i][m] + d[m][j] < d[i][j]
    ensures Closure(d)[i][j] <= d[i][m] + d[m][j] < d[i][j]
  {
    ClosureIsTriangleClosed(d);
  }

  /** The points (0,0), (1,1), (2,2) with distances rounded to 1, 1 and 3: the
      closure lowers the 3 to at most 2, so `floyds` is not a no-op. */
  lemma RoundedDiagonalExample(points: seq<Point>, dist: (Point, Point) -> nat)
    requires |points| == 3
    requires dist(points[0], points[1]) == 1 && dist(points[1], points[2]) == 1
    requires dist(points[0], points[2]) == 3
    ensures Closure(DistanceMatrix(points, dist))[0][2] <= 2 < DistanceMatrix(points, dist)[0][2]
  {
    var g := DistanceMatrix(points, dist);
    assert AtMostInf(g);
    ClosureRepairsTriangleViolation(g, 0, 2, 1);
  }

  /** When the off-diagonal entries already obey the triangle inequality, the
      closure leaves all of them as they were (only the diagonal can move). */
  lemma {:induction false} MetricRoundsKeepOffDiagonal(d: Matrix, k: nat)
    requires IsSquare(d, |d|) && NonNegative(d) && k <= |d|
    requires forall i, j, m :: (0 <= i < |d| && 0 <= j < |d| && 0 <= m < |d|
               && i != j && i != m && m != j) ==> d[i][j] <= d[i][m] + d[m][j]
    ensures forall i, j :: 0 <= i < |d| && 0 <= j < |d| && i != j ==> Rounds(d, k)[i][j] == d[i][j]
  {
    if k > 0 {
      MetricRoundsKeepOffDiagonal(d, k - 1);
      RoundsBounds(d, k - 1);
      var e := Rounds(d, k - 1);
      forall i, j | 0 <= i < |d| && 0 <= j < |d| && i != j
        ensures Rounds(d, k)[i][j] == d[i][j]
      {
        assert Rounds(d, k)[i][j] == Relax(e, k - 1, i, j);
        if i == k - 1 {
          assert e[i][i] >= 0;
        } else if j == k - 1 {
          assert e[j][j] >= 0;
        } else {
          assert e[i][k - 1] == d[i][k - 1] && e[k - 1][j] == d[k - 1][j];
        }
      }
    }
  }

  lemma ClosureKeepsMetricOffDiagonal(d: Matrix)
    requires IsSquare(d, |d|) && NonNegative(d)
    requires forall i, j, m :: (0 <= i < |d| && 0 <= j < |d| && 0 <= m < |d|
               && i != j && i != m && m != j) ==> d[i][j] <= d[i][m] + d[m][j]
    ensures forall i, j :: 0 <= i < |d| && 0 <= j < |d| && i != j ==> Closure(d)[i][j] == d[i][j]
  {
    MetricRoundsKeepOffDiagonal(d, |d|);
  }

  // ---------------------------------------------------------------------------
  // sumGraph
  // ---------------------------------------------------------------------------

  /** Entries d[i][j], d[i][j+1], ... of row i, skipping those equal to INF. */
  function RowSum(d: Matrix, i: nat, j: nat): int
    requires IsSquare(d, |d|) && i < |d| && j <= |d|
    decreases |d| - j
  {
    if j == |d| then 0
    else (if d[i][j] == INF then 0 else d[i][j]) + RowSum(d, i, j + 1)
  }

  /** The strictly upper part of rows i, i+1, ..., skipping INF entries. */
  function UpperSumFrom(d: Matrix, i: nat): int
    requires IsSquare(d, |d|)
    decreases |d| - i
  {
    if i >= |d| then 0 else RowSum(d, i, i + 1) + UpperSumFrom(d, i + 1)
  }

  /** The sum of every entry above the diagonal that is not INF. */
  function UpperSum(d: Matrix): int
    requires IsSquare(d, |d|)
  {
    UpperSumFrom(d, 0)
  }

  /** `sumGraph`: the two loops over i < j, skipping INF entries. */
  method SumGraph(d: Matrix) returns (total: int)
    requires IsSquare(d, |d|)
    ensures total == UpperSum(d)
  {
    var n := |d|;
    total := 0;
    var i := 0;
    while i < n
      invariant 0 <= i <= n
      invariant total + UpperSumFrom(d, i) == UpperSum(d)
    {
      var j := i + 1;
      while j < n
        invariant i + 1 <= j <= n
        invariant total + RowSum(d, i, j) + UpperSumFrom(d, i + 1) == UpperSum(d)
      {
        if d[i][j] != INF {
          total := total + d[i][j];
        }
        j := j + 1;
      }
      i := i + 1;
    }
  }

  /** Only the entries above the diagonal count: the sum is 0 for at most one
      point, it is non-negative for a non-negative matrix, and two matrices
      that agree above the diagonal have the same sum. */
  lemma {:induction false} UpperSumFacts(d: Matrix, e: Matrix, i: nat)
    requires IsSquare(d, |d|) && IsSquare(e, |d|)
    requires forall a, b :: 0 <= a < b < |d| ==> d[a][b] == e[a][b]
    ensures UpperSumFrom(d, i) == UpperSumFrom(e, i)
    ensures NonNegative(d) ==> UpperSumFrom(d, i) >= 0
    ensures |d| <= 1 ==> UpperSumFrom(d, i) == 0
    decreases |d| - i
  {
    if i < |d| {
      RowSumFacts(d, e, i, i + 1);
      UpperSumFacts(d, e, i + 1);
    }
  }

  lemma {:induction false} RowSumFacts(d: Matrix, e: Matrix, i: nat, j: nat)
    requires IsSquare(d, |d|) && IsSquare(e, |d|) && i < j <= |d|
    requires forall a, b :: 0 <= a < b < |d| ==> d[a][b] == e[a][b]
    ensures RowSum(d, i, j) == RowSum(e, i, j)
    ensures NonNegative(d) ==> RowSum(d, i, j) >= 0
    decreases |d| - j
  {
    if j < |d| {
      RowSumFacts(d, e, i, j + 1);
    }
  }

  /** When the rounded distances obey the triangle inequality, the road cost is
      the plain sum of the pairwise distances below INF: the closure then
      changes nothing above the diagonal. */
  lemma MetricRoadCostUnchanged(points: seq<Point>, dist: (Point, Point) -> nat)
    requires forall a, b, c :: a in points && b in points && c in points
               ==> dist(a, c) <= dist(a, b) + dist(b, c)
    requires forall a, b :: a in points && b in points ==> dist(a, b) == dist(b, a)
    ensures UpperSum(Closure(DistanceMatrix(points, dist))) == UpperSum(DistanceMatrix(points, dist))
  {
    var g := DistanceMatrix(points, dist);
    var n := |points|;
    forall i, j, m | 0 <= i < n && 0 <= j < n && 0 <= m < n && i != j && i != m && m != j
      ensures g[i][j] <= g[i][m] + g[m][j]
    {
      assert g[i][j] == dist(points[i], points[j]);
      assert g[i][m] == dist(points[i], points[m]);
      assert g[m][j] == dist(points[m], points[j]);
    }
    ClosureKeepsMetricOffDiagonal(g);
    UpperSumFacts(Closure(g), g, 0);
  }
}
