/** `calculateConvexHullArea`: the shoelace formula over the hull taken as a
    closed polygon. */
module Area {
  import opened Util
  import opened Geometry

  /** `p1.x * p2.y - p2.x * p1.y`, one term of the shoelace sum. */
  function Cross(p: Point, q: Point): int
  {
    p.x * q.y - q.x * p.y
  }

  lemma CrossAntisymmetric(p: Point, q: Point)
    ensures Cross(q, p) == -Cross(p, q)
  {
  }

  /** The terms for i, i+1, ..., |h|-1 of the loop, each pairing h[i] with
      h[(i + 1) % |h|]. */
  function ShoelaceFrom(h: seq<Point>, i: nat): int
    requires i <= |h|
    decreases |h| - i
  {
    if i == |h| then 0
    else Cross(h[i], h[Next(|h|, i)]) + ShoelaceFrom(h, i + 1)
  }

  /** The signed sum accumulated in `area`: twice the signed area. */
  function Shoelace(h: seq<Point>): int
  {
    ShoelaceFrom(h, 0)
  }

  /** `calculateConvexHullArea`: |sum| / 2. */
  function HullArea(h: seq<Point>): (a: real)
    ensures a >= 0.0
    ensures 2.0 * a == Abs(Shoelace(h)) as real
  {
    Abs(Shoelace(h)) as real / 2.0
  }

  // ---------------------------------------------------------------------------
  // An open-chain view of the same sum
  // ---------------------------------------------------------------------------

  /** Sum of Cross(s[i], s[i+1]) along the open chain s. */
  function Chain(s: seq<Point>): int
  {
    if |s| < 2 then 0 else Cross(s[0], s[1]) + Chain(s[1..])
  }

  /** The loop's sum is the open chain plus the closing edge. */
  lemma {:induction false} ShoelaceFromIsChain(h: seq<Point>, i: nat)
    requires i < |h|
    ensures ShoelaceFrom(h, i) == Chain(h[i..]) + Cross(h[|h| - 1], h[0])
    decreases |h| - i
  {
    if i == |h| - 1 {
      assert ShoelaceFrom(h, i + 1) == 0;
    } else {
      ShoelaceFromIsChain(h, i + 1);
      assert h[i..][1..] == h[i + 1..];
    }
  }

  lemma ShoelaceIsClosedChain(h: seq<Point>)
    requires |h| > 0
    ensures Shoelace(h) == Chain(h) + Cross(h[|h| - 1], h[0])
  {
    ShoelaceFromIsChain(h, 0);
    assert h[0..] == h;
  }

  /** Joining two chains adds the edge between them. */
  lemma {:induction false} ChainAppend(a: seq<Point>, b: seq<Point>)
    requires |a| > 0 && |b| > 0
    ensures Chain(a + b) == Chain(a) + Cross(a[|a| - 1], b[0]) + Chain(b)
    decreases |a|
  {
    if |a| == 1 {
      assert (a + b)[1..] == b;
    } else {
      ChainAppend(a[1..], b);
      assert (a + b)[1..] == a[1..] + b;
    }
  }

  /** `s` read backwards. */
  function Reverse(s: seq<Point>): (r: seq<Point>)
    ensures |r| == |s|
    ensures forall k :: 0 <= k < |s| ==> r[k] == s[|s| - 1 - k]
  {
    if |s| == 0 then [] else Reverse(s[1..]) + [s[0]]
  }

  lemma {:induction false} ChainReverse(s: seq<Point>)
    ensures Chain(Reverse(s)) == -Chain(s)
  {
    if |s| >= 2 {
      ChainReverse(s[1..]);
      ChainAppend(Reverse(s[1..]), [s[0]]);
      CrossAntisymmetric(s[0], s[1]);
    }
  }

  // ---------------------------------------------------------------------------
  // The promised properties
  // ---------------------------------------------------------------------------

  /** With two points or fewer the polygon encloses nothing. */
  lemma AreaOfAtMostTwoPoints(h: seq<Point>)
    requires |h| <= 2
    ensures HullArea(h) == 0.0
  {
    if |h| > 0 {
      ShoelaceIsClosedChain(h);
      if |h| == 2 {
        CrossAntisymmetric(h[0], h[1]);
      }
    }
  }

  /** Starting the hull at another vertex does not change its area. */
  lemma AreaRotationInvariant(h: seq<Point>, k: nat)
    requires k <= |h|
    ensures Shoelace(h[k..] + h[..k]) == Shoelace(h)
    ensures HullArea(h[k..] + h[..k]) == HullArea(h)
  {
    var a, b := h[..k], h[k..];
    assert h == a + b;
    if 0 < k < |h| {
      ShoelaceIsClosedChain(a + b);
      ShoelaceIsClosedChain(b + a);
      ChainAppend(a, b);
      ChainAppend(b, a);
    } else if k == |h| {
      assert h[k..] + h[..k] == h;
    } else {
      assert h[k..] + h[..k] == h;
    }
  }

  /** Walking the hull the other way round flips the sign of the sum and keeps
      the area. */
  lemma AreaReversalInvariant(h: seq<Point>)
    ensures Shoelace(Reverse(h)) == -Shoelace(h)
    ensures HullArea(Reverse(h)) == HullArea(h)
  {
    if |h| > 0 {
      ShoelaceIsClosedChain(h);
      ShoelaceIsClosedChain(Reverse(h));
      ChainReverse(h);
      CrossAntisymmetric(h[0], h[|h| - 1]);
    }
  }

  /** The unit square (0,0), (1,0), (1,1), (0,1) has area exactly 1. */
  lemma UnitSquareArea(a: Point, b: Point, c: Point, d: Point)
    requires Spot(a) == (0, 0) && Spot(b) == (1, 0) && Spot(c) == (1, 1) && Spot(d) == (0, 1)
    ensures HullArea([a, b, c, d]) == 1.0
  {
    var h := [a, b, c, d];
    assert Cross(a, b) == 0 && Cross(b, c) == 1 && Cross(c, d) == 1 && Cross(d, a) == 0;
    assert ShoelaceFrom(h, 3) == Cross(d, a) by {
      assert Next(4, 3) == 0;
    }
    assert ShoelaceFrom(h, 2) == Cross(c, d) + ShoelaceFrom(h, 3);
    assert ShoelaceFrom(h, 1) == Cross(b, c) + ShoelaceFrom(h, 2);
    assert ShoelaceFrom(h, 0) == Cross(a, b) + ShoelaceFrom(h, 1);
  }
}
