/** `getHullBrute`: keep both points of every pair whose line leaves all the
    points weakly on one side, collect them in a `set<Point>` ordered by (x, y),
    then put them in angular order. */
module BruteForceHull {
  import opened Util
  import opened Geometry

  /** The angular sort stands for `std::sort` with the centroid comparator.
      That comparator is not a strict weak order around the full circle, so
      all the model relies on is that the sort permutes its input. */
  ghost predicate Permutes(arrange: seq<Point> -> seq<Point>)
  {
    forall s :: multiset(arrange(s)) == multiset(s)
  }

  /** A sort: any function that permutes its input. */
  type Arranger = f: seq<Point> -> seq<Point> | Permutes(f) witness (s: seq<Point>) => s

  // ---------------------------------------------------------------------------
  // The line test
  // ---------------------------------------------------------------------------

  /** The line through p and q written as a*x + b*y = c. */
  function LineA(p: Point, q: Point): int { q.y - p.y }
  function LineB(p: Point, q: Point): int { p.x - q.x }
  function LineC(p: Point, q: Point): int { p.x * q.y - p.y * q.x }

  /** a*x + b*y for the point r. */
  function LineValue(p: Point, q: Point, r: Point): int
  {
    LineA(p, q) * r.x + LineB(p, q) * r.y
  }

  /** `pointsBelowLine`: how many points of ps give a*x + b*y >= c. */
  function CountAtLeast(p: Point, q: Point, ps: seq<Point>): (k: nat)
    ensures k <= |ps|
  {
    if |ps| == 0 then 0
    else CountAtLeast(p, q, ps[..|ps| - 1])
         + (if LineValue(p, q, ps[|ps| - 1]) >= LineC(p, q) then 1 else 0)
  }

  /** `pointsAboveLine`: how many points of ps give a*x + b*y <= c. */
  function CountAtMost(p: Point, q: Point, ps: seq<Point>): (k: nat)
    ensures k <= |ps|
  {
    if |ps| == 0 then 0
    else CountAtMost(p, q, ps[..|ps| - 1])
         + (if LineValue(p, q, ps[|ps| - 1]) <= LineC(p, q) then 1 else 0)
  }

  /** The pair (i, j) passes the test when one of the two counters reaches the
      number of points. */
  predicate IsBoundaryPair(points: seq<Point>, i: nat, j: nat)
    requires i < j < |points|
  {
    CountAtLeast(points[i], points[j], points) == |points|
    || CountAtMost(points[i], points[j], points) == |points|
  }

  /** The line expression and the orientation test compute the same number. */
  lemma LineValueIsTurn(p: Point, q: Point, r: Point)
    ensures LineValue(p, q, r) - LineC(p, q) == Turn(p, q, r)
  {
    assert LineValue(p, q, r) - LineC(p, q)
        == q.y * r.x - p.y * r.x + p.x * r.y - q.x * r.y - p.x * q.y + p.y * q.x;
    assert Turn(p, q, r)
        == q.y * r.x - q.y * q.x - p.y * r.x + p.y * q.x
           - r.y * q.x + r.y * p.x + q.y * q.x - q.y * p.x;
  }

  lemma {:induction false} CountAtLeastIsAll(p: Point, q: Point, ps: seq<Point>)
    ensures CountAtLeast(p, q, ps) == |ps|
            <==> forall r :: r in ps ==> LineValue(p, q, r) >= LineC(p, q)
  {
    if |ps| > 0 {
      var init := ps[..|ps| - 1];
      CountAtLeastIsAll(p, q, init);
      assert ps == init + [ps[|ps| - 1]];
    }
  }

  lemma {:induction false} CountAtMostIsAll(p: Point, q: Point, ps: seq<Point>)
    ensures CountAtMost(p, q, ps) == |ps|
            <==> forall r :: r in ps ==> LineValue(p, q, r) <= LineC(p, q)
  {
    if |ps| > 0 {
      var init := ps[..|ps| - 1];
      CountAtMostIsAll(p, q, init);
      assert ps == init + [ps[|ps| - 1]];
    }
  }

  /** Every point lies weakly on one side of the line through p and q, measured
      with the orientation test. */
  ghost predicate OneSide(points: seq<Point>, p: Point, q: Point)
  {
    (forall r :: r in points ==> Orientation(p, q, r) >= 0)
    || (forall r :: r in points ==> Orientation(p, q, r) <= 0)
  }

  /** The counting test of the source accepts a pair exactly when all points
      lie weakly on one side of its line. */
  lemma BoundaryPairIffOneSide(points: seq<Point>, i: nat, j: nat)
    requires i < j < |points|
    ensures IsBoundaryPair(points, i, j) <==> OneSide(points, points[i], points[j])
  {
    var p, q := points[i], points[j];
    CountAtLeastIsAll(p, q, points);
    CountAtMostIsAll(p, q, points);
    forall r | r in points
      ensures LineValue(p, q, r) >= LineC(p, q) <==> Orientation(p, q, r) >= 0
      ensures LineValue(p, q, r) <= LineC(p, q) <==> Orientation(p, q, r) <= 0
    {
      LineValueIsTurn(p, q, r);
    }
  }

  // ---------------------------------------------------------------------------
  // The insertions, in loop order
  // ---------------------------------------------------------------------------

  /** The points inserted into the boundary set while the inner loop runs over
      j, j+1, ... for a fixed i. */
  function RowInserts(points: seq<Point>, i: nat, j: nat): (r: seq<Point>)
    requires i < j
    decreases |points| - j
  {
    if j >= |points| then []
    else (if IsBoundaryPair(points, i, j) then [points[i], points[j]] else [])
         + RowInserts(points, i, j + 1)
  }

  /** The points inserted while the outer loop runs over i, i+1, ... */
  function Inserts(points: seq<Point>, i: nat): (r: seq<Point>)
    decreases |points| - i
  {
    if i >= |points| then []
    else RowInserts(points, i, i + 1) + Inserts(points, i + 1)
  }

  /** p is an end of some pair that passes the test. */
  ghost predicate IsEndpoint(points: seq<Point>, p: Point)
  {
    exists i: nat, j: nat :: i < j < |points| && IsBoundaryPair(points, i, j)
                             && (p == points[i] || p == points[j])
  }

  /** p is an end of a passing pair (i, j') with j' >= j. */
  ghost predicate EndOfRowPair(points: seq<Point>, i: nat, j: nat, p: Point)
  {
    exists j': nat :: j <= j' < |points| && i < j' && IsBoundaryPair(points, i, j')
                      && (p == points[i] || p == points[j'])
  }

  /** p is an end of a passing pair (i', j') with i' >= i. */
  ghost predicate EndOfPairFrom(points: seq<Point>, i: nat, p: Point)
  {
    exists i': nat, j': nat :: i <= i' < j' < |points| && IsBoundaryPair(points, i', j')
                               && (p == points[i'] || p == points[j'])
  }

  lemma {:induction false} RowInsertsAreEndpoints(points: seq<Point>, i: nat, j: nat, p: Point)
    requires i < j
    ensures p in RowInserts(points, i, j) <==> EndOfRowPair(points, i, j, p)
    decreases |points| - j
  {
    if j < |points| {
      RowInsertsAreEndpoints(points, i, j + 1, p);
      if EndOfRowPair(points, i, j, p) && !EndOfRowPair(points, i, j + 1, p) {
        var j': nat :| j <= j' < |points| && i < j' && IsBoundaryPair(points, i, j')
                       && (p == points[i] || p == points[j']);
        assert j' == j;
      }
    }
  }

  lemma {:induction false} InsertsAreEndpointsAt(points: seq<Point>, i: nat, p: Point)
    ensures p in Inserts(points, i) <==> EndOfPairFrom(points, i, p)
    decreases |points| - i
  {
    if i < |points| {
      RowInsertsAreEndpoints(points, i, i + 1, p);
      InsertsAreEndpointsAt(points, i + 1, p);
      if p in RowInserts(points, i, i + 1) {
        var j': nat :| i + 1 <= j' < |points| && i < j' && IsBoundaryPair(points, i, j')
                       && (p == points[i] || p == points[j']);
        assert i <= i < j' < |points| && IsBoundaryPair(points, i, j');
      } else if p in Inserts(points, i + 1) {
        var i': nat, j': nat :| i + 1 <= i' < j' < |points| && IsBoundaryPair(points, i', j')
                                && (p == points[i'] || p == points[j']);
        assert i <= i' < j' < |points| && IsBoundaryPair(points, i', j');
      }
      if EndOfPairFrom(points, i, p) {
        var i': nat, j': nat :| i <= i' < j' < |points| && IsBoundaryPair(points, i', j')
                                && (p == points[i'] || p == points[j']);
        if i' == i {
          assert EndOfRowPair(points, i, i + 1, p);
        } else {
          assert EndOfPairFrom(points, i + 1, p);
        }
      }
    }
  }

  lemma InsertsAreEndpoints(points: seq<Point>, i: nat)
    ensures forall p :: p in Inserts(points, i) <==> EndOfPairFrom(points, i, p)
  {
    forall p ensures p in Inserts(points, i) <==> EndOfPairFrom(points, i, p) {
      InsertsAreEndpointsAt(points, i, p);
    }
  }

  // ---------------------------------------------------------------------------
  // The set<Point> ordered by (x, y)
  // ---------------------------------------------------------------------------

  /** The in-order contents of a `set<Point>`: strictly increasing under Less. */
  predicate StrictlySorted(s: seq<Point>)
  {
    forall a, b :: 0 <= a < b < |s| ==> Less(s[a], s[b])
  }

  /** The locations occupied by the points of s. */
  function Spots(s: seq<Point>): set<(int, int)>
  {
    set p | p in s :: Spot(p)
  }

  lemma ConsSorted(x: Point, t: seq<Point>)
    requires StrictlySorted(t)
    requires forall q :: q in t ==> Less(x, q)
    ensures StrictlySorted([x] + t)
  {
    forall a, b | 0 <= a < b < |t| + 1 ensures Less(([x] + t)[a], ([x] + t)[b]) {
      if a == 0 {
        assert ([x] + t)[b] == t[b - 1];
      } else {
        assert ([x] + t)[a] == t[a - 1] && ([x] + t)[b] == t[b - 1];
      }
    }
  }

  /** `set<Point>::insert`: a point whose location is already present is
      dropped, so the set keeps the first point inserted at each location. */
  function SetInsert(s: seq<Point>, p: Point): (r: seq<Point>)
    requires StrictlySorted(s)
    ensures StrictlySorted(r)
    ensures forall q :: q in s ==> q in r
    ensures forall q :: q in r ==> q in s || q == p
    ensures Spots(r) == Spots(s) + {Spot(p)}
    ensures Spot(p) in Spots(s) ==> r == s
  {
    if |s| == 0 then [p]
    else if Less(p, s[0]) then
      InsertAtFront(s, p);
      [p] + s
    else if Less(s[0], p) then
      var rest := SetInsert(s[1..], p);
      InsertAfterHead(s, p, rest);
      [s[0]] + rest
    else
      LessIsStrictTotalOrder(p, s[0], p);
      s
  }

  /** A point below the head of a sorted sequence goes in front, at a new
      location. */
  lemma InsertAtFront(s: seq<Point>, p: Point)
    requires StrictlySorted(s) && |s| > 0 && Less(p, s[0])
    ensures StrictlySorted([p] + s)
    ensures Spot(p) !in Spots(s)
  {
    assert forall q :: q in s ==> Less(p, q) by {
      forall q | q in s ensures Less(p, q) {
        var k :| 0 <= k < |s| && s[k] == q;
        if k > 0 { LessIsStrictTotalOrder(p, s[0], q); }
      }
    }
    ConsSorted(p, s);
  }

  /** A point above the head goes into the tail; the head stays in front. */
  lemma InsertAfterHead(s: seq<Point>, p: Point, rest: seq<Point>)
    requires StrictlySorted(s) && |s| > 0 && Less(s[0], p)
    requires StrictlySorted(rest)
    requires forall q :: q in s[1..] ==> q in rest
    requires forall q :: q in rest ==> q in s[1..] || q == p
    requires Spots(rest) == Spots(s[1..]) + {Spot(p)}
    requires Spot(p) in Spots(s[1..]) ==> rest == s[1..]
    ensures StrictlySorted([s[0]] + rest)
    ensures forall q :: q in s ==> q in [s[0]] + rest
    ensures forall q :: q in [s[0]] + rest ==> q in s || q == p
    ensures Spots([s[0]] + rest) == Spots(s) + {Spot(p)}
    ensures Spot(p) in Spots(s) ==> [s[0]] + rest == s
  {
    assert s == [s[0]] + s[1..];
    assert Spots(s) == {Spot(s[0])} + Spots(s[1..]);
    assert Spots([s[0]] + rest) == {Spot(s[0])} + Spots(rest);
    assert Spot(p) in Spots(s) ==> Spot(p) in Spots(s[1..]);
    assert forall q :: q in rest ==> Less(s[0], q) by {
      forall q | q in rest ensures Less(s[0], q) {
        if q != p {
          var k :| 0 <= k < |s[1..]| && s[1..][k] == q;
          assert s[k + 1] == q;
        }
      }
    }
    ConsSorted(s[0], rest);
  }

  /** Inserting the points of ps one after another. */
  function InsertAll(s: seq<Point>, ps: seq<Point>): (r: seq<Point>)
    requires StrictlySorted(s)
    ensures StrictlySorted(r)
    ensures forall q :: q in s ==> q in r
    ensures forall q :: q in r ==> q in s || q in ps
    ensures Spots(r) == Spots(s) + Spots(ps)
    decreases |ps|
  {
    if |ps| == 0 then s
    else
      assert ps == [ps[0]] + ps[1..];
      assert Spots(ps) == {Spot(ps[0])} + Spots(ps[1..]);
      InsertAll(SetInsert(s, ps[0]), ps[1..])
  }

  /** `boundaryPoints` after the pair loop, read out in (x, y) order. */
  function Boundary(points: seq<Point>): (r: seq<Point>)
    ensures StrictlySorted(r)
  {
    InsertAll([], Inserts(points, 0))
  }

  /** No two points of a strictly sorted sequence share a location. */
  lemma StrictlySortedDistinct(s: seq<Point>)
    requires StrictlySorted(s)
    ensures forall a, b :: 0 <= a < b < |s| ==> Spot(s[a]) != Spot(s[b])
  {
  }

  // ---------------------------------------------------------------------------
  // The brute-force hull
  // ---------------------------------------------------------------------------

  /** `getHullBrute`. Its result holds one point per location reached by a
      passing pair: each is an input point that ends some passing pair, no two
      share a location, every end of a passing pair has its location present,
      and the result is no longer than the input. */
  function HullBrute(points: seq<Point>, arrange: Arranger): (r: seq<Point>)
    ensures multiset(r) == multiset(Boundary(points))
    ensures forall p :: p in r ==> p in points && IsEndpoint(points, p)
    ensures forall a, b :: 0 <= a < b < |r| ==> Spot(r[a]) != Spot(r[b])
    ensures forall p :: IsEndpoint(points, p) ==> Spot(p) in Spots(r)
    ensures |r| <= |points|
    ensures |points| <= 1 ==> r == []
  {
    var b := Boundary(points);
    var r := arrange(b);
    BoundaryFacts(points);
    DistinctSpotsKept(b, r);
    DistinctShorter(r, points);
    r
  }

  /** What the pair loop and the set leave behind, before the angular sort. */
  lemma BoundaryFacts(points: seq<Point>)
    ensures forall p :: p in Boundary(points) ==> p in points && IsEndpoint(points, p)
    ensures forall a, b :: 0 <= a < b < |Boundary(points)|
              ==> Spot(Boundary(points)[a]) != Spot(Boundary(points)[b])
    ensures forall p :: IsEndpoint(points, p) ==> Spot(p) in Spots(Boundary(points))
    ensures |points| <= 1 ==> Boundary(points) == []
  {
    var b := Boundary(points);
    assert |points| <= 1 ==> Inserts(points, 0) == [] by {
      if |points| == 1 { assert RowInserts(points, 0, 1) == []; }
    }
    InsertsAreEndpoints(points, 0);
    forall p | p in b
      ensures p in points && IsEndpoint(points, p)
    {
      assert p in Inserts(points, 0);
      var i': nat, j': nat :| 0 <= i' < j' < |points| && IsBoundaryPair(points, i', j')
                              && (p == points[i'] || p == points[j']);
    }
    forall p | IsEndpoint(points, p)
      ensures Spot(p) in Spots(b)
    {
      assert p in Inserts(points, 0);
      assert Spot(p) in Spots(Inserts(points, 0));
    }
    StrictlySortedDistinct(b);
  }

  /** A permutation of a sequence whose locations are distinct also has
      distinct locations and the same set of locations. */
  lemma DistinctSpotsKept(b: seq<Point>, r: seq<Point>)
    requires multiset(r) == multiset(b)
    requires forall a, c :: 0 <= a < c < |b| ==> Spot(b[a]) != Spot(b[c])
    ensures forall p :: p in r <==> p in b
    ensures forall a, c :: 0 <= a < c < |r| ==> Spot(r[a]) != Spot(r[c])
    ensures Spots(r) == Spots(b)
  {
    forall p ensures p in r <==> p in b {
      assert p in r <==> p in multiset(r);
      assert p in b <==> p in multiset(b);
    }
    forall a, c | 0 <= a < c < |r|
      ensures Spot(r[a]) != Spot(r[c])
    {
      if Spot(r[a]) == Spot(r[c]) {
        assert r[a] in b && r[c] in b;
        var a' :| 0 <= a' < |b| && b[a'] == r[a];
        var c' :| 0 <= c' < |b| && b[c'] == r[c];
        assert a' == c';
        assert r[a] == r[c];
        assert multiset(r)[r[a]] >= 2 by {
          MultiplicityAtLeastTwo(r, a, c);
        }
        MultiplicityOfDistinct(b, a');
        assert false;
      }
    }
  }

  /** An element found at two positions occurs at least twice. */
  lemma MultiplicityAtLeastTwo<T>(s: seq<T>, a: int, c: int)
    requires 0 <= a < c < |s| && s[a] == s[c]
    ensures multiset(s)[s[a]] >= 2
  {
    assert s == s[..a] + [s[a]] + s[a + 1..c] + [s[c]] + s[c + 1..];
  }

  /** In a sequence with distinct locations each element occurs once. */
  lemma MultiplicityOfDistinct(b: seq<Point>, a: int)
    requires 0 <= a < |b|
    requires forall x, y :: 0 <= x < y < |b| ==> Spot(b[x]) != Spot(b[y])
    ensures multiset(b)[b[a]] == 1
  {
    assert b == b[..a] + [b[a]] + b[a + 1..];
    assert b[a] !in b[..a];
    assert b[a] !in b[a + 1..];
    assert multiset(b[..a])[b[a]] == 0;
    assert multiset(b[a + 1..])[b[a]] == 0;
  }

  /** Every point on one line: each pair's line holds all the points, so every
      location survives, not only the two extreme ones. */
  ghost predicate AllCollinear(points: seq<Point>)
  {
    forall p, q, r :: p in points && q in points && r in points ==> Turn(p, q, r) == 0
  }

  lemma {:induction false} CollinearKeepsEveryPoint(points: seq<Point>, arrange: Arranger)
    requires |points| >= 2 && AllCollinear(points)
    ensures Spots(HullBrute(points, arrange)) == Spots(points)
  {
    var r := HullBrute(points, arrange);
    forall k | 0 <= k < |points|
      ensures Spot(points[k]) in Spots(r)
    {
      var i, j := 0, if k == 0 then 1 else k;
      BoundaryPairIffOneSide(points, i, j);
      assert OneSide(points, points[i], points[j]);
      assert IsEndpoint(points, points[k]);
    }
    forall s | s in Spots(r) ensures s in Spots(points) {
      var p :| p in r && Spot(p) == s;
      assert p in points;
    }
  }

  /** An end of a pair that passes the counting test is the same thing as an
      end of a pair whose line, judged by the orientation test, has every point
      weakly on one side. */
  lemma EndpointIffOneSide(points: seq<Point>, p: Point)
    ensures IsEndpoint(points, p) <==>
      exists i: nat, j: nat :: i < j < |points| && OneSide(points, points[i], points[j])
                               && (p == points[i] || p == points[j])
  {
    if IsEndpoint(points, p) {
      var i: nat, j: nat :| i < j < |points| && IsBoundaryPair(points, i, j)
                            && (p == points[i] || p == points[j]);
      BoundaryPairIffOneSide(points, i, j);
    }
    if exists i: nat, j: nat :: i < j < |points| && OneSide(points, points[i], points[j])
                                && (p == points[i] || p == points[j]) {
      var i: nat, j: nat :| i < j < |points| && OneSide(points, points[i], points[j])
                            && (p == points[i] || p == points[j]);
      BoundaryPairIffOneSide(points, i, j);
    }
  }
}
