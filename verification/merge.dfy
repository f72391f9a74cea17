/** `mergeHulls`: join a left and a right hull along their upper and lower
    tangents.

    Each tangent search is a pair of index walks around the two hulls that
    repeats until neither index moves. The source gives no bound on these
    walks, and some inputs make them spin forever (a one-point hull, for one),
    so every walk here carries a `fuel` bound and reports `None` when the bound
    runs out. Everything proved about a finished walk holds whatever the fuel
    was, and more fuel never changes a finished answer. */
module Merge {
  import opened Util
  import opened Geometry

  // ---------------------------------------------------------------------------
  // Starting indices
  // ---------------------------------------------------------------------------

  /** The scan for `iL`: the first point of the hull with the largest x. */
  function Rightmost(h: seq<Point>): (r: nat)
    requires |h| > 0
    ensures r < |h|
    ensures forall k :: 0 <= k < |h| ==> h[k].x <= h[r].x
    ensures forall k :: 0 <= k < r ==> h[k].x < h[r].x
  {
    if |h| == 1 then 0
    else
      var best := Rightmost(h[..|h| - 1]);
      if h[|h| - 1].x > h[best].x then |h| - 1 else best
  }

  /** The scan for `iR`: the first point of the hull with the smallest x. */
  function Leftmost(h: seq<Point>): (r: nat)
    requires |h| > 0
    ensures r < |h|
    ensures forall k :: 0 <= k < |h| ==> h[r].x <= h[k].x
    ensures forall k :: 0 <= k < r ==> h[r].x < h[k].x
  {
    if |h| == 1 then 0
    else
      var best := Leftmost(h[..|h| - 1]);
      if h[|h| - 1].x < h[best].x then |h| - 1 else best
  }

  // ---------------------------------------------------------------------------
  // The index walks
  // ---------------------------------------------------------------------------

  /** A forward walk: step i forward around h while the turn q, h[i], h[i+1] is
      not counter-clockwise. It stops at an index where that turn is strictly
      counter-clockwise. */
  function Advance(h: seq<Point>, q: Point, i: nat, fuel: nat): (r: Option<nat>)
    requires i < |h|
    ensures r.Some? ==> r.value < |h| && Orientation(q, h[r.value], h[Next(|h|, r.value)]) < 0
    decreases fuel
  {
    if Orientation(q, h[i], h[Next(|h|, i)]) < 0 then Some(i)
    else if fuel == 0 then None
    else Advance(h, q, Next(|h|, i), fuel - 1)
  }

  /** A backward walk: step i backward around h while the turn q, h[i], h[i-1]
      is not clockwise. It stops at an index where that turn is strictly
      clockwise. */
  function Retreat(h: seq<Point>, q: Point, i: nat, fuel: nat): (r: Option<nat>)
    requires i < |h|
    ensures r.Some? ==> r.value < |h| && Orientation(q, h[r.value], h[Prev(|h|, r.value)]) > 0
    decreases fuel
  {
    if Orientation(q, h[i], h[Prev(|h|, i)]) > 0 then Some(i)
    else if fuel == 0 then None
    else Retreat(h, q, Prev(|h|, i), fuel - 1)
  }

  /** The index s steps forward from i around n positions. */
  function Walk(n: nat, i: nat, s: nat): (r: nat)
    requires i < n
    ensures r < n
    decreases s
  {
    if s == 0 then i else Walk(n, Next(n, i), s - 1)
  }

  /** The index s steps backward from i around n positions. */
  function WalkBack(n: nat, i: nat, s: nat): (r: nat)
    requires i < n
    ensures r < n
    decreases s
  {
    if s == 0 then i else WalkBack(n, Prev(n, i), s - 1)
  }

  /** The forward walk's loop condition holds at j: it steps on. */
  predicate AdvancesPast(h: seq<Point>, q: Point, j: nat)
    requires j < |h|
  {
    Orientation(q, h[j], h[Next(|h|, j)]) >= 0
  }

  /** The backward walk's loop condition holds at j: it steps on. */
  predicate RetreatsPast(h: seq<Point>, q: Point, j: nat)
    requires j < |h|
  {
    Orientation(q, h[j], h[Prev(|h|, j)]) <= 0
  }

  /** The forward walk's loop condition holds at each of the first s indices
      from i. */
  ghost predicate ForwardRun(h: seq<Point>, q: Point, i: nat, s: nat)
    requires i < |h|
  {
    forall k :: 0 <= k < s ==> AdvancesPast(h, q, Walk(|h|, i, k))
  }

  /** The backward walk's loop condition holds at each of the first s indices
      from i. */
  ghost predicate BackwardRun(h: seq<Point>, q: Point, i: nat, s: nat)
    requires i < |h|
  {
    forall k :: 0 <= k < s ==> RetreatsPast(h, q, WalkBack(|h|, i, k))
  }

  /** A run from the next index, preceded by a step at i, is one step longer. */
  lemma ForwardRunShift(h: seq<Point>, q: Point, i: nat, s: nat)
    requires i < |h|
    ensures AdvancesPast(h, q, i) && ForwardRun(h, q, Next(|h|, i), s) <==> ForwardRun(h, q, i, s + 1)
  {
    var i1 := Next(|h|, i);
    forall k | 0 < k < s + 1 ensures Walk(|h|, i, k) == Walk(|h|, i1, k - 1) { }
    assert Walk(|h|, i, 0) == i;
    if ForwardRun(h, q, i, s + 1) {
      forall k | 0 <= k < s ensures AdvancesPast(h, q, Walk(|h|, i1, k)) {
        assert Walk(|h|, i, k + 1) == Walk(|h|, i1, k);
      }
    }
  }

  /** The same shift for the backward walk. */
  lemma BackwardRunShift(h: seq<Point>, q: Point, i: nat, s: nat)
    requires i < |h|
    ensures RetreatsPast(h, q, i) && BackwardRun(h, q, Prev(|h|, i), s) <==> BackwardRun(h, q, i, s + 1)
  {
    var i1 := Prev(|h|, i);
    forall k | 0 < k < s + 1 ensures WalkBack(|h|, i, k) == WalkBack(|h|, i1, k - 1) { }
    assert WalkBack(|h|, i, 0) == i;
    if BackwardRun(h, q, i, s + 1) {
      forall k | 0 <= k < s ensures RetreatsPast(h, q, WalkBack(|h|, i1, k)) {
        assert WalkBack(|h|, i, k + 1) == WalkBack(|h|, i1, k);
      }
    }
  }

  /** A forward walk that ends stops at the first index reached from i where
      the loop condition fails: some s steps within the fuel, with the
      condition holding at every index before. */
  lemma {:induction false} AdvanceStopsAtFirst(h: seq<Point>, q: Point, i: nat, fuel: nat)
    requires i < |h|
    ensures Advance(h, q, i, fuel).Some? ==>
      exists s: nat :: s <= fuel && Advance(h, q, i, fuel).value == Walk(|h|, i, s) && ForwardRun(h, q, i, s)
    decreases fuel
  {
    var r := Advance(h, q, i, fuel);
    if r.Some? {
      if !AdvancesPast(h, q, i) {
        assert r.value == Walk(|h|, i, 0) && ForwardRun(h, q, i, 0);
      } else {
        var i1 := Next(|h|, i);
        assert r == Advance(h, q, i1, fuel - 1);
        AdvanceStopsAtFirst(h, q, i1, fuel - 1);
        var s: nat :| s <= fuel - 1 && r.value == Walk(|h|, i1, s) && ForwardRun(h, q, i1, s);
        ForwardRunShift(h, q, i, s);
        assert r.value == Walk(|h|, i, s + 1);
      }
    }
  }

  /** Conversely, when the first index where the loop condition fails is s
      steps from i and the fuel covers s steps, the walk stops exactly there. */
  lemma {:induction false} AdvanceReachesFirst(h: seq<Point>, q: Point, i: nat, fuel: nat, s: nat)
    requires i < |h| && s <= fuel
    requires ForwardRun(h, q, i, s) && !AdvancesPast(h, q, Walk(|h|, i, s))
    ensures Advance(h, q, i, fuel) == Some(Walk(|h|, i, s))
    decreases s
  {
    if s > 0 {
      var i1 := Next(|h|, i);
      ForwardRunShift(h, q, i, s - 1);
      assert Walk(|h|, i, s) == Walk(|h|, i1, s - 1);
      AdvanceReachesFirst(h, q, i1, fuel - 1, s - 1);
    }
  }

  /** The backward walk likewise stops at the first index reached from i
      where its loop condition fails. */
  lemma {:induction false} RetreatStopsAtFirst(h: seq<Point>, q: Point, i: nat, fuel: nat)
    requires i < |h|
    ensures Retreat(h, q, i, fuel).Some? ==>
      exists s: nat :: s <= fuel && Retreat(h, q, i, fuel).value == WalkBack(|h|, i, s) && BackwardRun(h, q, i, s)
    decreases fuel
  {
    var r := Retreat(h, q, i, fuel);
    if r.Some? {
      if !RetreatsPast(h, q, i) {
        assert r.value == WalkBack(|h|, i, 0) && BackwardRun(h, q, i, 0);
      } else {
        var i1 := Prev(|h|, i);
        assert r == Retreat(h, q, i1, fuel - 1);
        RetreatStopsAtFirst(h, q, i1, fuel - 1);
        var s: nat :| s <= fuel - 1 && r.value == WalkBack(|h|, i1, s) && BackwardRun(h, q, i1, s);
        BackwardRunShift(h, q, i, s);
        assert r.value == WalkBack(|h|, i, s + 1);
      }
    }
  }

  /** Conversely, the backward walk stops at the first failing index whenever
      the fuel covers the steps to it. */
  lemma {:induction false} RetreatReachesFirst(h: seq<Point>, q: Point, i: nat, fuel: nat, s: nat)
    requires i < |h| && s <= fuel
    requires BackwardRun(h, q, i, s) && !RetreatsPast(h, q, WalkBack(|h|, i, s))
    ensures Retreat(h, q, i, fuel) == Some(WalkBack(|h|, i, s))
    decreases s
  {
    if s > 0 {
      var i1 := Prev(|h|, i);
      BackwardRunShift(h, q, i, s - 1);
      assert WalkBack(|h|, i, s) == WalkBack(|h|, i1, s - 1);
      RetreatReachesFirst(h, q, i1, fuel - 1, s - 1);
    }
  }

  // ---------------------------------------------------------------------------
  // The two tangents
  // ---------------------------------------------------------------------------

  /** The exit condition of the upper-tangent search: neither of its walks
      would move from (l, r). */
  predicate IsUpperTangent(left: seq<Point>, right: seq<Point>, l: nat, r: nat)
  {
    && l < |left| && r < |right|
    && Orientation(right[r], left[l], left[Next(|left|, l)]) < 0
    && Orientation(left[l], right[r], right[Prev(|right|, r)]) > 0
  }

  /** The exit condition of the lower-tangent search. */
  predicate IsLowerTangent(left: seq<Point>, right: seq<Point>, l: nat, r: nat)
  {
    && l < |left| && r < |right|
    && Orientation(left[l], right[r], right[Next(|right|, r)]) < 0
    && Orientation(right[r], left[l], left[Prev(|left|, l)]) > 0
  }

  /** The upper-tangent search: walk the left index forward against the right
      point, then walk the right index backward against the left point; stop
      when the second walk does not move (`done` stays true). */
  function UpperTangent(left: seq<Point>, right: seq<Point>, l: nat, r: nat, fuel: nat)
    : (t: Option<(nat, nat)>)
    requires l < |left| && r < |right|
    ensures t.Some? ==> IsUpperTangent(left, right, t.value.0, t.value.1)
    decreases fuel
  {
    match Advance(left, right[r], l, fuel)
    case None => None
    case Some(l1) =>
      if Orientation(left[l1], right[r], right[Prev(|right|, r)]) > 0 then Some((l1, r))
      else if fuel == 0 then None
      else
        match Retreat(right, left[l1], r, fuel)
        case None => None
        case Some(r1) => UpperTangent(left, right, l1, r1, fuel - 1)
  }

  /** The lower-tangent search: the same with the hulls' roles and the
      directions exchanged. */
  function LowerTangent(left: seq<Point>, right: seq<Point>, l: nat, r: nat, fuel: nat)
    : (t: Option<(nat, nat)>)
    requires l < |left| && r < |right|
    ensures t.Some? ==> IsLowerTangent(left, right, t.value.0, t.value.1)
    decreases fuel
  {
    match Advance(right, left[l], r, fuel)
    case None => None
    case Some(r1) =>
      if Orientation(right[r1], left[l], left[Prev(|left|, l)]) > 0 then Some((l, r1))
      else if fuel == 0 then None
      else
        match Retreat(left, right[r1], l, fuel)
        case None => None
        case Some(l1) => LowerTangent(left, right, l1, r1, fuel - 1)
  }

  // ---------------------------------------------------------------------------
  // Assembling the result
  // ---------------------------------------------------------------------------

  /** The index k steps forward from `from` around n points, `(from + k) % n`. */
  function Ahead(n: nat, from: nat, k: nat): (r: nat)
    requires from < n && k < n
    ensures r < n
  {
    if from + k < n then from + k else from + k - n
  }

  /** How many forward steps lead from `from` to `to` around n points. */
  function Steps(n: nat, from: nat, to: nat): (s: nat)
    requires from < n && to < n
    ensures s < n
    ensures Ahead(n, from, s) == to
  {
    if from <= to then to - from else to + n - from
  }

  /** h[from], h[from+1], ..., h[to], walking forward modulo |h|. */
  function Arc(h: seq<Point>, from: nat, to: nat): (r: seq<Point>)
    requires from < |h| && to < |h|
    ensures |r| == Steps(|h|, from, to) + 1
    ensures |r| <= |h|
    ensures forall k :: 0 <= k < |r| ==> r[k] == h[Ahead(|h|, from, k)]
    decreases Steps(|h|, from, to)
  {
    if from == to then [h[from]]
    else [h[from]] + Arc(h, Next(|h|, from), to)
  }

  /** `mergeHulls`. The result is the left hull walked forward from its upper
      tangent point to its lower one, followed by the right hull walked forward
      from its lower tangent point to its upper one; it has at most n1 + n2
      points and every one of them comes from an input hull. Either hull being
      empty is an out-of-range access in the source and gives `None`. */
  function MergeHulls(left: seq<Point>, right: seq<Point>, fuel: nat): (m: Option<seq<Point>>)
    ensures m.Some? ==> |left| > 0 && |right| > 0
    ensures m.Some? ==> exists ul: nat, ur: nat, ll: nat, lr: nat ::
      && IsUpperTangent(left, right, ul, ur)
      && IsLowerTangent(left, right, ll, lr)
      && m.value == Arc(left, ul, ll) + Arc(right, lr, ur)
    ensures m.Some? ==> |m.value| <= |left| + |right|
    ensures m.Some? ==> forall p :: p in m.value ==> p in left || p in right
  {
    if |left| == 0 || |right| == 0 then None
    else
      var iL := Rightmost(left);
      var iR := Leftmost(right);
      match UpperTangent(left, right, iL, iR, fuel)
      case None => None
      case Some(upper) =>
        match LowerTangent(left, right, iL, iR, fuel)
        case None => None
        case Some(lower) =>
          var a := Arc(left, upper.0, lower.0);
          var b := Arc(right, lower.1, upper.1);
          assert forall p :: p in a ==> p in left;
          assert forall p :: p in b ==> p in right;
          Some(a + b)
  }

  // ---------------------------------------------------------------------------
  // Facts about the walks
  // ---------------------------------------------------------------------------

  /** `Ahead` is the source's `(from + k) % n`. */
  lemma AheadIsMod(n: nat, from: nat, k: nat)
    requires from < n && k < n
    ensures Ahead(n, from, k) == (from + k) % n
  {
    if from + k >= n {
      assert from + k == n + (from + k - n);
    }
  }

  /** A forward walk that stops with some fuel stops at the same index with more. */
  lemma {:induction false} AdvanceMoreFuel(h: seq<Point>, q: Point, i: nat, fuel: nat, more: nat)
    requires i < |h| && fuel <= more
    requires Advance(h, q, i, fuel).Some?
    ensures Advance(h, q, i, more) == Advance(h, q, i, fuel)
    decreases fuel
  {
    if Orientation(q, h[i], h[Next(|h|, i)]) >= 0 {
      AdvanceMoreFuel(h, q, Next(|h|, i), fuel - 1, more - 1);
    }
  }

  /** A backward walk that stops with some fuel stops at the same index with more. */
  lemma {:induction false} RetreatMoreFuel(h: seq<Point>, q: Point, i: nat, fuel: nat, more: nat)
    requires i < |h| && fuel <= more
    requires Retreat(h, q, i, fuel).Some?
    ensures Retreat(h, q, i, more) == Retreat(h, q, i, fuel)
    decreases fuel
  {
    if Orientation(q, h[i], h[Prev(|h|, i)]) <= 0 {
      RetreatMoreFuel(h, q, Prev(|h|, i), fuel - 1, more - 1);
    }
  }

  /** The upper-tangent search gives the same answer with any larger fuel. */
  lemma {:induction false} UpperTangentMoreFuel(left: seq<Point>, right: seq<Point>, l: nat, r: nat,
                                                fuel: nat, more: nat)
    requires l < |left| && r < |right| && fuel <= more
    requires UpperTangent(left, right, l, r, fuel).Some?
    ensures UpperTangent(left, right, l, r, more) == UpperTangent(left, right, l, r, fuel)
    decreases fuel
  {
    AdvanceMoreFuel(left, right[r], l, fuel, more);
    var l1 := Advance(left, right[r], l, fuel).value;
    if Orientation(left[l1], right[r], right[Prev(|right|, r)]) <= 0 {
      RetreatMoreFuel(right, left[l1], r, fuel, more);
      var r1 := Retreat(right, left[l1], r, fuel).value;
      UpperTangentMoreFuel(left, right, l1, r1, fuel - 1, more - 1);
    }
  }

  /** The lower-tangent search gives the same answer with any larger fuel. */
  lemma {:induction false} LowerTangentMoreFuel(left: seq<Point>, right: seq<Point>, l: nat, r: nat,
                                                fuel: nat, more: nat)
    requires l < |left| && r < |right| && fuel <= more
    requires LowerTangent(left, right, l, r, fuel).Some?
    ensures LowerTangent(left, right, l, r, more) == LowerTangent(left, right, l, r, fuel)
    decreases fuel
  {
    AdvanceMoreFuel(right, left[l], r, fuel, more);
    var r1 := Advance(right, left[l], r, fuel).value;
    if Orientation(right[r1], left[l], left[Prev(|left|, l)]) <= 0 {
      RetreatMoreFuel(left, right[r1], l, fuel, more);
      var l1 := Retreat(left, right[r1], l, fuel).value;
      LowerTangentMoreFuel(left, right, l1, r1, fuel - 1, more - 1);
    }
  }

  /** A merge that finishes with some fuel finishes with the same hull with more:
      the fuel only cuts off walks that would not have ended. */
  lemma MergeHullsMoreFuel(left: seq<Point>, right: seq<Point>, fuel: nat, more: nat)
    requires fuel <= more
    requires MergeHulls(left, right, fuel).Some?
    ensures MergeHulls(left, right, more) == MergeHulls(left, right, fuel)
  {
    var iL := Rightmost(left);
    var iR := Leftmost(right);
    UpperTangentMoreFuel(left, right, iL, iR, fuel, more);
    LowerTangentMoreFuel(left, right, iL, iR, fuel, more);
  }

  /** On a one-point hull the forward walk compares the point with itself, the
      turn is 0, and the walk never stops. */
  lemma {:induction false} AdvanceSpinsOnOnePoint(h: seq<Point>, q: Point, fuel: nat)
    requires |h| == 1
    ensures Advance(h, q, 0, fuel) == None
    decreases fuel
  {
    OrientationFacts(q, h[0], h[0]);
    if fuel > 0 {
      AdvanceSpinsOnOnePoint(h, q, fuel - 1);
    }
  }

  /** The same for the backward walk. */
  lemma {:induction false} RetreatSpinsOnOnePoint(h: seq<Point>, q: Point, fuel: nat)
    requires |h| == 1
    ensures Retreat(h, q, 0, fuel) == None
    decreases fuel
  {
    OrientationFacts(q, h[0], h[0]);
    if fuel > 0 {
      RetreatSpinsOnOnePoint(h, q, fuel - 1);
    }
  }

  /** With a one-point hull on the right the upper-tangent search never ends:
      once the left walk stops, the right walk sees a zero turn and spins. */
  lemma {:induction false} UpperTangentSpinsOnOnePointRight(left: seq<Point>, right: seq<Point>,
                                                            l: nat, fuel: nat)
    requires l < |left| && |right| == 1
    ensures UpperTangent(left, right, l, 0, fuel) == None
  {
    var a := Advance(left, right[0], l, fuel);
    if a.Some? {
      OrientationFacts(left[a.value], right[0], right[0]);
      if fuel > 0 {
        RetreatSpinsOnOnePoint(right, left[a.value], fuel);
      }
    }
  }

  /** Merging with a one-point hull on either side never finishes. */
  lemma MergeWithOnePointHullSpins(left: seq<Point>, right: seq<Point>, fuel: nat)
    requires |left| == 1 || |right| == 1
    ensures MergeHulls(left, right, fuel) == None
  {
    if |left| > 0 && |right| > 0 {
      var iL := Rightmost(left);
      var iR := Leftmost(right);
      if |left| == 1 {
        AdvanceSpinsOnOnePoint(left, right[iR], fuel);
      } else {
        UpperTangentSpinsOnOnePointRight(left, right, iL, fuel);
      }
    }
  }
}
