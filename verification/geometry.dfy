/** Named points, their (x, y) ordering and the orientation test that every
    hull decision rests on. */
module Geometry {

  /** A point of interest. The program reads its coordinates as doubles; here
      they take integer values only. On such points the cross product of the
      orientation test, which is truncated to an `int` only after it is
      formed, and the line test of the brute-force hull are exact. */
  datatype Point = Point(name: string, x: int, y: int)

  /** The (x, y) location of a point; the name plays no part in any geometry. */
  function Spot(p: Point): (int, int)
  {
    (p.x, p.y)
  }

  /** `Point::operator<`: compare x first, then y. */
  predicate Less(a: Point, b: Point)
  {
    if a.x != b.x then a.x < b.x else a.y < b.y
  }

  /** The order is a strict total order on locations: two points are
      equivalent under it exactly when they share their location, which is
      what lets a `set<Point>` drop a second point at the same spot. */
  lemma LessIsStrictTotalOrder(a: Point, b: Point, c: Point)
    ensures !Less(a, a)
    ensures Less(a, b) ==> !Less(b, a)
    ensures Less(a, b) && Less(b, c) ==> Less(a, c)
    ensures !Less(a, b) && !Less(b, a) <==> Spot(a) == Spot(b)
  {
  }

  /** The integer `res` of the orientation test: the cross product of p1->p2
      and p2->p3 with the sign flipped, so it is positive for a clockwise turn
      and negative for a counter-clockwise one. */
  function Turn(p1: Point, p2: Point, p3: Point): int
  {
    (p2.y - p1.y) * (p3.x - p2.x) - (p3.y - p2.y) * (p2.x - p1.x)
  }

  /** `orientation`: 1 for clockwise, -1 for counter-clockwise, 0 for collinear. */
  function Orientation(p1: Point, p2: Point, p3: Point): (r: int)
    ensures -1 <= r <= 1
    ensures r == 0 <==> Turn(p1, p2, p3) == 0
    ensures r > 0 <==> Turn(p1, p2, p3) > 0
  {
    var res := Turn(p1, p2, p3);
    if res == 0 then 0
    else if res > 0 then 1
    else -1
  }

  /** Reading the three points backwards reverses the turn. */
  lemma TurnReversed(p1: Point, p2: Point, p3: Point)
    ensures Turn(p3, p2, p1) == -Turn(p1, p2, p3)
  {
    var a, b := p2.y - p1.y, p3.x - p2.x;
    var c, d := p3.y - p2.y, p2.x - p1.x;
    assert Turn(p1, p2, p3) == a * b - c * d;
    assert Turn(p3, p2, p1) == (-c) * (-d) - (-a) * (-b);
  }

  /** The turn is the same whichever of the three points is read first. */
  lemma TurnRotated(p1: Point, p2: Point, p3: Point)
    ensures Turn(p2, p3, p1) == Turn(p1, p2, p3)
  {
    var t := (p2.y - p1.y) * (p3.x - p2.x) - (p3.y - p2.y) * (p2.x - p1.x);
    var u := (p3.y - p2.y) * (p1.x - p3.x) - (p1.y - p3.y) * (p3.x - p2.x);
    assert t == p2.y * p3.x - p2.y * p2.x - p1.y * p3.x + p1.y * p2.x
              - p3.y * p2.x + p3.y * p1.x + p2.y * p2.x - p2.y * p1.x;
    assert u == p3.y * p1.x - p3.y * p3.x - p2.y * p1.x + p2.y * p3.x
              - p1.y * p3.x + p1.y * p2.x + p3.y * p3.x - p3.y * p2.x;
  }

  /** The orientation test: its three outcomes, a zero whenever two of the
      points share a location, a sign flip when the first and third points are
      swapped, and invariance under rotating the three points. */
  lemma OrientationFacts(p1: Point, p2: Point, p3: Point)
    ensures Orientation(p1, p2, p3) in {-1, 0, 1}
    ensures Spot(p1) == Spot(p2) || Spot(p2) == Spot(p3) || Spot(p1) == Spot(p3)
            ==> Orientation(p1, p2, p3) == 0
    ensures Orientation(p3, p2, p1) == -Orientation(p1, p2, p3)
    ensures Orientation(p2, p3, p1) == Orientation(p1, p2, p3)
  {
    TurnReversed(p1, p2, p3);
    TurnRotated(p1, p2, p3);
    if Spot(p1) == Spot(p3) {
      var a, b := p2.y - p1.y, p1.x - p2.x;
      assert Turn(p1, p2, p3) == a * b - (-a) * (-b);
    }
  }
}
