/** `getHullDNC`: the brute-force hull for five points or fewer, otherwise the
    merge of the hulls of the two halves split by index. */
module DivideAndConquerHull {
  import opened Util
  import opened Geometry
  import opened BruteForceHull
  import opened Merge

  /** The largest input handed to the brute-force hull. */
  const BruteLimit: nat := 5

  /** The split at `size / 2`: the two halves rebuild the input, each has at
      least three points, and each is strictly smaller than the input. */
  function Split(points: seq<Point>): (halves: (seq<Point>, seq<Point>))
    requires |points| > BruteLimit
    ensures halves.0 + halves.1 == points
    ensures 3 <= |halves.0| <= |halves.1| <= |halves.0| + 1
    ensures |halves.1| < |points|
  {
    (points[..|points| / 2], points[|points| / 2..])
  }

  /** `getHullDNC`. `None` means a merge along the way did not finish within
      the fuel. Small inputs get exactly the brute-force hull (and always
      finish); a finished hull holds only input points and is no longer than
      the input. */
  function HullDnc(points: seq<Point>, arrange: Arranger, fuel: nat)
    : (r: Option<seq<Point>>)
    ensures |points| <= BruteLimit ==> r == Some(HullBrute(points, arrange))
    ensures r.Some? ==> forall p :: p in r.value ==> p in points
    ensures r.Some? ==> |r.value| <= |points|
    decreases |points|
  {
    if |points| <= BruteLimit then Some(HullBrute(points, arrange))
    else
      var (left, right) := Split(points);
      match HullDnc(left, arrange, fuel)
      case None => None
      case Some(leftHull) =>
        match HullDnc(right, arrange, fuel)
        case None => None
        case Some(rightHull) =>
          var m := MergeHulls(leftHull, rightHull, fuel);
          assert m.Some? ==> forall p :: p in m.value ==> p in points by {
            forall p | p in left ensures p in points { }
            forall p | p in right ensures p in points { }
          }
          m
  }

  /** A hull that finishes with some fuel is the same hull with more fuel. */
  lemma {:induction false} HullDncMoreFuel(points: seq<Point>, arrange: Arranger,
                                           fuel: nat, more: nat)
    requires fuel <= more
    requires HullDnc(points, arrange, fuel).Some?
    ensures HullDnc(points, arrange, more) == HullDnc(points, arrange, fuel)
    decreases |points|
  {
    if |points| > BruteLimit {
      var (left, right) := Split(points);
      HullDncMoreFuel(left, arrange, fuel, more);
      HullDncMoreFuel(right, arrange, fuel, more);
      MergeHullsMoreFuel(HullDnc(left, arrange, fuel).value, HullDnc(right, arrange, fuel).value,
                         fuel, more);
    }
  }
}
