/** Point in ring: the winding number of ptarray_contains_point (src/ptarray.c), the
    crossing number of pt_in_ring_2d (src/rtalgorithm.c), and the box of a ring. */
module Rings {
  import opened Convex
  import opened Planar
  import PA = PointArrays

  predicate P2dSame(p: Point2D, q: Point2D) { FpEquals(p.x, q.x) && FpEquals(p.y, q.y) }

  function Signum(n: real): int {
    if n < 0.0 then -1 else if n > 0.0 then 1 else 0
  }

  function SideValue(p1: Point2D, p2: Point2D, q: Point2D): real {
    (q.x - p1.x)*(p2.y - p1.y) - (p2.x - p1.x)*(q.y - p1.y)
  }

  /** rt_segment_side: -1 left, 1 right, 0 on the line. */
  function SegmentSide(p1: Point2D, p2: Point2D, q: Point2D): int {
    var side := SideValue(p1, p2, q);
    if side == 0.0 then 0 else Signum(side)
  }

  /** rt_pt_in_seg: for a point of the line, within the segment but not its end. */
  predicate PtInSeg(P: Point2D, A1: Point2D, A2: Point2D) {
    || (A1.x <= P.x < A2.x) || (A1.x >= P.x > A2.x)
    || (A1.y <= P.y < A2.y) || (A1.y >= P.y > A2.y)
  }

  /** pt is a point of the proper segment AB other than B. */
  ghost predicate OnHalfOpen(pt: Point2D, A: Point2D, B: Point2D) {
    A != B && exists t :: 0.0 <= t < 1.0 && pt == Lerp(A, B, t)
  }

  lemma SideScalar(a: real, a': real, b: real, b': real, t: real)
    ensures ((a + t*(b - a)) - a)*(b' - a') - (b - a)*((a' + t*(b' - a')) - a') == 0.0
  {
  }

  lemma LineScalar(u: real, v: real, x: real, y: real, t: real)
    requires x*v == u*y && u != 0.0 && t*u == x
    ensures t*v == y
  {
    assert u*(t*v - y) == (t*u)*v - u*y;
    NonZeroFactor(u, t*v - y);
  }

  lemma HalfOpenFraction(x: real, u: real) returns (t: real)
    requires (0.0 <= x < u) || (0.0 >= x > u)
    ensures 0.0 <= t < 1.0 && t*u == x && u != 0.0
  {
    if u > 0.0 {
      t := UnitQuotient(x, u);
    } else {
      t := UnitQuotient(-x, -u);
      assert t*(-u) == -(t*u);
    }
  }

  lemma TestFindsPoint(pt: Point2D, A: Point2D, B: Point2D)
    requires A != B && SideValue(A, B, pt) == 0.0 && PtInSeg(pt, A, B)
    ensures OnHalfOpen(pt, A, B)
  {
    var u, v, x, y := B.x - A.x, B.y - A.y, pt.x - A.x, pt.y - A.y;
    assert x*v == u*y;
    if (A.x <= pt.x < B.x) || (A.x >= pt.x > B.x) {
      var t := HalfOpenFraction(x, u);
      LineScalar(u, v, x, y, t);
      assert pt == Lerp(A, B, t);
    } else {
      var t := HalfOpenFraction(y, v);
      LineScalar(v, u, y, x, t);
      assert pt == Lerp(A, B, t);
    }
  }

  lemma PointPassesTest(pt: Point2D, A: Point2D, B: Point2D)
    requires OnHalfOpen(pt, A, B)
    ensures SideValue(A, B, pt) == 0.0 && PtInSeg(pt, A, B)
  {
    hide SideValue, Lerp;
    var t :| 0.0 <= t < 1.0 && pt == Lerp(A, B, t);
    SideOfLerp(A, B, t);
    HalfOpenCoordinate(A.x, B.x, t, pt.x);
    HalfOpenCoordinate(A.y, B.y, t, pt.y);
  }

  lemma SideOfLerp(A: Point2D, B: Point2D, t: real)
    ensures SideValue(A, B, Lerp(A, B, t)) == 0.0
    ensures Lerp(A, B, t).x == A.x + t*(B.x - A.x) && Lerp(A, B, t).y == A.y + t*(B.y - A.y)
  {
    SideScalar(A.x, A.y, B.x, B.y, t);
  }

  lemma HalfOpenCoordinate(a: real, b: real, t: real, m: real)
    requires 0.0 <= t < 1.0 && m == a + t*(b - a)
    ensures a < b ==> a <= m < b
    ensures a > b ==> a >= m > b
  {
    if a < b {
      ProductNonNegative(t, b - a);
      var z := ProductPositive(1.0 - t, b - a);
    } else if a > b {
      ProductNonNegative(t, a - b);
      var z := ProductPositive(1.0 - t, a - b);
    }
  }

  /** The exact test of the source finds exactly the points of a segment but its end. */
  lemma BoundaryTest(pt: Point2D, A: Point2D, B: Point2D)
    requires A != B
    ensures SegmentSide(A, B, pt) == 0 && PtInSeg(pt, A, B) <==> OnHalfOpen(pt, A, B)
  {
    assert SegmentSide(A, B, pt) == 0 <==> SideValue(A, B, pt) == 0.0;
    hide SideValue, PtInSeg, SegmentSide, OnHalfOpen;
    if SegmentSide(A, B, pt) == 0 && PtInSeg(pt, A, B) {
      TestFindsPoint(pt, A, B);
    }
    if OnHalfOpen(pt, A, B) {
      PointPassesTest(pt, A, B);
    }
  }

  // ---- Winding and crossing, edge by edge ----

  predicate Rising(a: Point2D, b: Point2D, pt: Point2D) { a.y <= pt.y < b.y }

  /** What an edge adds to the winding number. */
  function Turn(a: Point2D, b: Point2D, pt: Point2D): int {
    if SegmentSide(a, b, pt) < 0 && Rising(a, b, pt) then 1
    else if SegmentSide(a, b, pt) > 0 && Rising(b, a, pt) then -1
    else 0
  }

  function Winding(pa: seq<Point2D>, pt: Point2D): int {
    if |pa| < 2 then 0 else Winding(pa[..|pa| - 1], pt) + Turn(pa[|pa| - 2], pa[|pa| - 1], pt)
  }

  /** The x at which an edge meets the horizontal through pt is to the right of pt. */
  predicate CrossesRight(v1: Point2D, v2: Point2D, p: Point2D)
    requires v1.y != v2.y
  {
    p.x < v1.x + ((p.y - v1.y) / (v2.y - v1.y))*(v2.x - v1.x)
  }

  /** What an edge adds to the crossing number. */
  function Crossing(v1: Point2D, v2: Point2D, p: Point2D): int {
    if (v1.y <= p.y && v2.y > p.y) || (v1.y > p.y && v2.y <= p.y) then
      if CrossesRight(v1, v2, p) then 1 else 0
    else 0
  }

  function Crossings(ring: seq<Point2D>, p: Point2D): int {
    if |ring| < 2 then 0 else Crossings(ring[..|ring| - 1], p) + Crossing(ring[|ring| - 2], ring[|ring| - 1], p)
  }

  lemma RightScalar(x: real, y: real, u: real, v: real, t: real)
    requires v != 0.0 && t*v == y
    ensures v > 0.0 ==> (x < t*u <==> x*v - u*y < 0.0)
    ensures v < 0.0 ==> (x < t*u <==> x*v - u*y > 0.0)
  {
    assert (t*u - x)*v == u*(t*v) - x*v;
    SignOfProduct(t*u - x, v);
  }

  lemma SignOfProduct(d: real, v: real)
    requires v != 0.0
    ensures v > 0.0 ==> (d > 0.0 <==> d*v > 0.0)
    ensures v < 0.0 ==> (d > 0.0 <==> d*v < 0.0)
  {
    if d > 0.0 {
      var z := ProductPositive(d, if v > 0.0 then v else -v);
    } else {
      ProductNonNegative(-d, if v > 0.0 then v else -v);
    }
  }

  /** The two algorithms look at the same edges: a crossing is a turn, up or down. */
  lemma CrossingIsTurn(a: Point2D, b: Point2D, p: Point2D)
    ensures Crossing(a, b, p) == if Turn(a, b, p) == 0 then 0 else 1
    ensures -1 <= Turn(a, b, p) <= 1
  {
    if a.y != b.y {
      var t := (p.y - a.y) / (b.y - a.y);
      DivideBack(p.y - a.y, b.y - a.y);
      RightScalar(p.x - a.x, p.y - a.y, b.x - a.x, b.y - a.y, t);
      assert CrossesRight(a, b, p) <==> p.x - a.x < t*(b.x - a.x);
    }
  }

  // ---- What is counted ----

  /** The ray from p to the right meets the edge; of its ends the lower one counts. */
  ghost predicate RayMeets(a: Point2D, b: Point2D, p: Point2D) {
    && (a.y <= p.y < b.y || b.y <= p.y < a.y)
    && exists q :: q in Seg(a, b) && q.y == p.y && q.x > p.x
  }

  /** A crossing is an edge that the ray meets, upward or downward. */
  lemma CrossingIsMeeting(a: Point2D, b: Point2D, p: Point2D)
    ensures Crossing(a, b, p) == if RayMeets(a, b, p) then 1 else 0
    ensures Turn(a, b, p) == if !RayMeets(a, b, p) then 0 else if a.y < b.y then 1 else -1
  {
    hide Seg;
    CrossingIsTurn(a, b, p);
    if a.y <= p.y < b.y || b.y <= p.y < a.y {
      var t := LevelFraction(a, b, p);
      OnSegment(a, b, t);
      forall q | q in Seg(a, b) && q.y == p.y
        ensures q == Lerp(a, b, t)
      {
        OnlyAtLevel(a, b, q, t);
      }
      MeetsRight(a, b, p, t);
    }
  }

  lemma LevelFraction(a: Point2D, b: Point2D, p: Point2D) returns (t: real)
    requires a.y <= p.y < b.y || b.y <= p.y < a.y
    ensures InUnit(t) && t*(b.y - a.y) == p.y - a.y && Lerp(a, b, t).y == p.y && t == (p.y - a.y) / (b.y - a.y)
  {
    hide Lerp;
    if a.y < b.y {
      t := UnitQuotient(p.y - a.y, b.y - a.y);
    } else {
      t := UnitQuotient(a.y - p.y, a.y - b.y);
      OppositeFactors(t, b.y - a.y, a.y - b.y);
    }
    QuotientIs(t, p.y - a.y, b.y - a.y);
    LevelOf(a, b, t);
  }

  lemma OppositeFactors(t: real, g: real, h: real)
    requires h == -g
    ensures t*h == -(t*g)
  {
  }

  lemma QuotientIs(t: real, x: real, g: real)
    requires g != 0.0 && t*g == x
    ensures t == x / g
  {
    DivideBack(x, g);
    SameFraction(t, x / g, g);
  }

  lemma LevelOf(a: Point2D, b: Point2D, t: real)
    ensures Lerp(a, b, t).y == a.y + t*(b.y - a.y)
  {
  }

  lemma SameFraction(r: real, t: real, g: real)
    requires g != 0.0 && r*g == t*g
    ensures r == t
  {
    assert (r - t)*g == 0.0;
    NonZeroFactor(g, r - t);
  }

  lemma OnlyAtLevel(a: Point2D, b: Point2D, q: Point2D, t: real)
    requires a.y != b.y && q in Seg(a, b) && Lerp(a, b, t).y == q.y
    ensures q == Lerp(a, b, t)
  {
    var r :| InUnit(r) && q == Lerp(a, b, r);
    SameFraction(r, t, b.y - a.y);
  }

  lemma MeetsRight(a: Point2D, b: Point2D, p: Point2D, t: real)
    requires (a.y <= p.y < b.y || b.y <= p.y < a.y) && t == (p.y - a.y) / (b.y - a.y)
    ensures Crossing(a, b, p) == if Lerp(a, b, t).x > p.x then 1 else 0
    ensures Turn(a, b, p) != 0 ==> Turn(a, b, p) == if a.y < b.y then 1 else -1
  {
  }

  /** The numbers of the edges, by their second vertex, that the ray meets upward, and
      downward. */
  ghost function Upward(pa: seq<Point2D>, p: Point2D): set<int> {
    set i | 0 < i < |pa| && MeetsUpward(pa, i, p)
  }

  ghost function Downward(pa: seq<Point2D>, p: Point2D): set<int> {
    set i | 0 < i < |pa| && MeetsDownward(pa, i, p)
  }

  ghost predicate MeetsUpward(pa: seq<Point2D>, i: int, p: Point2D)
    requires 0 < i < |pa|
  {
    RayMeets(pa[i-1], pa[i], p) && pa[i-1].y < pa[i].y
  }

  ghost predicate MeetsDownward(pa: seq<Point2D>, i: int, p: Point2D)
    requires 0 < i < |pa|
  {
    RayMeets(pa[i-1], pa[i], p) && pa[i-1].y > pa[i].y
  }

  /** The winding number is how many more edges the ray meets upward than downward, and the
      crossing number how many it meets in all. */
  lemma {:induction false} NumbersCount(pa: seq<Point2D>, p: Point2D)
    ensures Winding(pa, p) == |Upward(pa, p)| - |Downward(pa, p)|
    ensures Crossings(pa, p) == |Upward(pa, p)| + |Downward(pa, p)|
  {
    hide Turn, Crossing, Upward, Downward;
    if |pa| >= 2 {
      var n := |pa| - 1;
      var a, b := pa[n-1], pa[n];
      NumbersCount(pa[..n], p);
      OneMoreEdge(pa, p);
      CrossingIsMeeting(a, b, p);
      NotYetCounted(pa[..n], p, n);
      if RayMeets(a, b, p) {
        assert a.y != b.y;
      }
    } else {
      NoEdgeCounted(pa, p);
    }
  }

  lemma NoEdgeCounted(pa: seq<Point2D>, p: Point2D)
    requires |pa| < 2
    ensures Upward(pa, p) == {} && Downward(pa, p) == {}
  {
  }

  lemma NotYetCounted(pa: seq<Point2D>, p: Point2D, n: int)
    requires n >= |pa|
    ensures n !in Upward(pa, p) && n !in Downward(pa, p)
  {
  }

  lemma OneMoreEdge(pa: seq<Point2D>, p: Point2D)
    requires |pa| >= 2
    ensures var n := |pa| - 1;
            && Upward(pa, p) == Upward(pa[..n], p) + (if RayMeets(pa[n-1], pa[n], p) && pa[n-1].y < pa[n].y then {n} else {})
            && Downward(pa, p) == Downward(pa[..n], p) + (if RayMeets(pa[n-1], pa[n], p) && pa[n-1].y > pa[n].y then {n} else {})
  {
    hide RayMeets;
    var n := |pa| - 1;
    assert forall i :: 0 < i < n ==> (MeetsUpward(pa[..n], i, p) <==> MeetsUpward(pa, i, p));
    assert forall i :: 0 < i < n ==> (MeetsDownward(pa[..n], i, p) <==> MeetsDownward(pa, i, p));
  }

  /** The crossing number has the parity of the winding number. */
  lemma {:induction false} SameParity(pa: seq<Point2D>, p: Point2D)
    ensures Crossings(pa, p) % 2 == (if Winding(pa, p) < 0 then -Winding(pa, p) else Winding(pa, p)) % 2
  {
    hide Crossing, Turn;
    if |pa| >= 2 {
      var front, a, b := pa[..|pa| - 1], pa[|pa| - 2], pa[|pa| - 1];
      SameParity(front, p);
      CrossingIsTurn(a, b, p);
      ParityStep(Crossings(front, p), Winding(front, p), Turn(a, b, p));
    }
  }

  lemma ParityStep(c: int, w: int, turn: int)
    requires c % 2 == (if w < 0 then -w else w) % 2 && -1 <= turn <= 1
    ensures (c + if turn == 0 then 0 else 1) % 2 == (if w + turn < 0 then -(w + turn) else w + turn) % 2
  {
    var a := if w < 0 then -w else w;
    NextParity(c, a);
    assert turn != 0 ==> (if w + turn < 0 then -(w + turn) else w + turn) in {a + 1, a - 1};
  }

  lemma NextParity(c: int, a: int)
    requires c % 2 == a % 2
    ensures (c + 1) % 2 == (a + 1) % 2 == (a - 1) % 2
  {
  }

  // ---- Points outside the box of a ring ----

  function Level(y: real, pt: Point2D): int { if y <= pt.y then 0 else 1 }

  /** With every edge to the right of the point, ups and downs telescope. */
  lemma {:induction false} TurnsTelescope(pa: seq<Point2D>, pt: Point2D)
    requires |pa| > 0 && forall i :: 0 <= i < |pa| ==> pt.x < pa[i].x
    ensures Winding(pa, pt) == Level(pa[|pa| - 1].y, pt) - Level(pa[0].y, pt)
  {
    if |pa| >= 2 {
      TurnsTelescope(pa[..|pa| - 1], pt);
      LeftOfEdge(pa[|pa| - 2], pa[|pa| - 1], pt);
    }
  }

  lemma LeftOfEdge(a: Point2D, b: Point2D, pt: Point2D)
    requires pt.x < a.x && pt.x < b.x
    ensures Turn(a, b, pt) == Level(b.y, pt) - Level(a.y, pt)
  {
    SideOfBox(a.x - pt.x, b.x - pt.x, pt.y - a.y, b.y - pt.y);
    SideIs(a, b, pt, a.x - pt.x, b.x - pt.x, pt.y - a.y, b.y - pt.y);
    hide SideValue;
  }

  /** What makes the side of an edge positive or negative. */
  function Weigh(f: real, g: real, h: real, k: real): real { f*k + g*h }

  lemma SideIs(a: Point2D, b: Point2D, pt: Point2D, f: real, g: real, h: real, k: real)
    requires f == a.x - pt.x && g == b.x - pt.x && h == pt.y - a.y && k == b.y - pt.y
    ensures SideValue(a, b, pt) == -Weigh(f, g, h, k)
    ensures SideValue(a, b, pt) == Weigh(-f, -g, h, k)
  {
    SideExpansion(f, g, h, k);
    assert SideValue(a, b, pt) == (-f)*(h + k) - (g - f)*h;
  }

  lemma SideExpansion(f: real, g: real, h: real, k: real)
    ensures (-f)*(h + k) - (g - f)*h == -Weigh(f, g, h, k)
    ensures Weigh(-f, -g, h, k) == -Weigh(f, g, h, k)
  {
  }

  lemma SideOfBox(f: real, g: real, h: real, k: real)
    requires f > 0.0 && g > 0.0
    ensures h >= 0.0 && k > 0.0 ==> Weigh(f, g, h, k) > 0.0
    ensures h < 0.0 && k <= 0.0 ==> Weigh(f, g, h, k) < 0.0
  {
    if h >= 0.0 && k > 0.0 {
      var z := ProductPositive(f, k);
      ProductNonNegative(g, h);
    } else if h < 0.0 && k <= 0.0 {
      var z := ProductPositive(g, -h);
      ProductNonNegative(f, -k);
    }
  }

  lemma RightOfEdge(a: Point2D, b: Point2D, pt: Point2D)
    requires pt.x > a.x && pt.x > b.x
    ensures Turn(a, b, pt) == 0
  {
    SideOfBox(pt.x - a.x, pt.x - b.x, pt.y - a.y, b.y - pt.y);
    SideIs(a, b, pt, a.x - pt.x, b.x - pt.x, pt.y - a.y, b.y - pt.y);
    hide SideValue, Weigh;
    assert Weigh(-(a.x - pt.x), -(b.x - pt.x), pt.y - a.y, b.y - pt.y)
           == Weigh(pt.x - a.x, pt.x - b.x, pt.y - a.y, b.y - pt.y);
  }

  lemma {:induction false} NoTurns(pa: seq<Point2D>, pt: Point2D)
    requires || (forall i :: 0 <= i < |pa| ==> pa[i].x < pt.x)
             || (forall i :: 0 <= i < |pa| ==> pa[i].y < pt.y)
             || (forall i :: 0 <= i < |pa| ==> pt.y < pa[i].y)
    ensures Winding(pa, pt) == 0
  {
    if |pa| >= 2 {
      NoTurns(pa[..|pa| - 1], pt);
      if pa[|pa| - 2].x < pt.x && pa[|pa| - 1].x < pt.x {
        RightOfEdge(pa[|pa| - 2], pa[|pa| - 1], pt);
      }
    }
  }

  /** Up and down crossings balance on a closed ring, so nothing winds around a point
      outside the box of the ring, and no edge reaches it. */
  lemma OutsideBox(pa: seq<Point2D>, pt: Point2D, box: GBox)
    requires |pa| > 0 && pa[0] == pa[|pa| - 1] && Bounds(box, pa) && !InBox(pt, box)
    ensures Winding(pa, pt) == 0
    ensures forall i :: 0 < i < |pa| ==> !OnHalfOpen(pt, pa[i-1], pa[i])
  {
    if pt.x < box.xmin {
      TurnsTelescope(pa, pt);
    } else {
      NoTurns(pa, pt);
    }
    forall i | 0 < i < |pa|
      ensures !OnHalfOpen(pt, pa[i-1], pa[i])
    {
      if OnHalfOpen(pt, pa[i-1], pa[i]) {
        var t :| 0.0 <= t < 1.0 && pt == Lerp(pa[i-1], pa[i], t);
        OnSegment(pa[i-1], pa[i], t);
        SegmentInBox(pt, pa[i-1], pa[i], box);
      }
    }
  }

  // ---- The boundary of a closed ring ----

  /** The vertex before which nothing but repeated vertices follows position i. */
  lemma {:induction false} NextProperEdge(pa: seq<Point2D>, i: nat)
    requires i < |pa|
    ensures || (forall j :: i <= j < |pa| ==> pa[j] == pa[i])
            || exists j :: i < j < |pa| && pa[j-1] == pa[i] && pa[j] != pa[j-1]
    decreases |pa| - i
  {
    if i + 1 < |pa| && pa[i+1] == pa[i] {
      NextProperEdge(pa, i + 1);
    }
  }

  /** On an exactly closed ring with two distinct vertices the half-open edges cover
      every point of every edge. */
  lemma HalfOpenCovers(pa: seq<Point2D>, pt: Point2D, a: nat, b: nat)
    requires |pa| > 0 && pa[0] == pa[|pa| - 1] && a < |pa| && b < |pa| && pa[a] != pa[b]
    ensures pt in Path(pa) <==> exists i :: 0 < i < |pa| && OnHalfOpen(pt, pa[i-1], pa[i])
  {
    if pt in Path(pa) {
      var e, e' := EdgeOf(pt, pa);
      var t :| InUnit(t) && pt == Lerp(pa[e], pa[e'], t);
      if pa[e] == pa[e'] || t == 1.0 {
        EndsOnSegment(pa[e], pa[e']);
        if pa[e] == pa[e'] {
          DegenerateSegment(pa[e]);
        }
        VertexOnHalfOpen(pa, e', a, b);
      } else {
        assert OnHalfOpen(pt, pa[e'-1], pa[e']);
      }
    }
    forall i | 0 < i < |pa| && OnHalfOpen(pt, pa[i-1], pa[i])
      ensures pt in Path(pa)
    {
      var t :| 0.0 <= t < 1.0 && pt == Lerp(pa[i-1], pa[i], t);
      OnSegment(pa[i-1], pa[i], t);
      EdgeInPath(pa, i - 1);
    }
  }

  lemma VertexOnHalfOpen(pa: seq<Point2D>, k: nat, a: nat, b: nat)
    requires |pa| > 0 && pa[0] == pa[|pa| - 1] && k < |pa| && a < |pa| && b < |pa| && pa[a] != pa[b]
    ensures exists i :: 0 < i < |pa| && OnHalfOpen(pa[k], pa[i-1], pa[i])
  {
    NextProperEdge(pa, k);
    NextProperEdge(pa, 0);
    var i: nat;
    if forall j :: k <= j < |pa| ==> pa[j] == pa[k] {
      assert pa[|pa| - 1] == pa[k] && !(forall j :: 0 <= j < |pa| ==> pa[j] == pa[0]);
      i :| 0 < i < |pa| && pa[i-1] == pa[0] && pa[i] != pa[i-1];
    } else {
      i :| k < i < |pa| && pa[i-1] == pa[k] && pa[i] != pa[i-1];
    }
    EndsOnSegment(pa[i-1], pa[i]);
    assert pa[k] == Lerp(pa[i-1], pa[i], 0.0);
  }

  // ---- The algorithms ----

  datatype Containment = Inside | Boundary | Outside | Unclosed

  ghost predicate OnSomeHalfOpen(pa: seq<Point2D>, pt: Point2D, n: int) {
    exists i :: 0 < i < n && i < |pa| && OnHalfOpen(pt, pa[i-1], pa[i])
  }

  /** ptarray_contains_point_partial; the winding number is meaningful unless the point
      is on the boundary or the ring is refused. */
  method ContainsPointPartial(pa: seq<Point2D>, pt: Point2D, checkClosed: bool) returns (res: Containment, wn: int)
    requires |pa| > 0
    ensures res == Unclosed <==> checkClosed && !P2dSame(pa[0], pa[|pa| - 1])
    ensures res == Unclosed ==> var (dx, dy) := (pa[0].x - pa[|pa| - 1].x, pa[0].y - pa[|pa| - 1].y);
                                dx < -0.000000000001 || dx > 0.000000000001 || dy < -0.000000000001 || dy > 0.000000000001
    ensures res != Unclosed && checkClosed
            ==> var (dx, dy) := (pa[0].x - pa[|pa| - 1].x, pa[0].y - pa[|pa| - 1].y);
                -0.000000000001 <= dx <= 0.000000000001 && -0.000000000001 <= dy <= 0.000000000001
    ensures res != Unclosed ==> (res == Boundary <==> OnSomeHalfOpen(pa, pt, |pa|))
    ensures res == Inside || res == Outside ==> wn == Winding(pa, pt) && (res == Inside <==> wn != 0)
    ensures res == Inside || res == Outside ==> wn == |Upward(pa, pt)| - |Downward(pa, pt)|
  {
    hide SideValue, OnHalfOpen, Upward, Downward;
    NumbersCount(pa, pt);
    wn := 0;
    var seg1 := pa[0];
    var seg2 := pa[|pa| - 1];
    if checkClosed && !P2dSame(seg1, seg2) {
      return Unclosed, wn;
    }
    assert pa[..1] == [pa[0]];
    var i := 1;
    while i < |pa|
      invariant 1 <= i <= |pa| && seg1 == pa[i-1]
      invariant wn == Winding(pa[..i], pt) && !OnSomeHalfOpen(pa, pt, i)
    {
      seg2 := pa[i];
      assert pa[..i+1][..i] == pa[..i];
      if seg1.x == seg2.x && seg1.y == seg2.y {
        NoEdge(seg1, pt);
        seg1 := seg2;
        i := i + 1;
        continue;
      }
      BoundaryTest(pt, seg1, seg2);
      var ymin := if seg1.y < seg2.y then seg1.y else seg2.y;
      var ymax := if seg1.y > seg2.y then seg1.y else seg2.y;
      if pt.y > ymax || pt.y < ymin {
        OffLevel(seg1, seg2, pt);
        seg1 := seg2;
        i := i + 1;
        continue;
      }
      var side := SegmentSide(seg1, seg2, pt);
      if side == 0 && PtInSeg(pt, seg1, seg2) {
        return Boundary, wn;
      }
      if side < 0 && seg1.y <= pt.y && pt.y < seg2.y {
        wn := wn + 1;
      } else if side > 0 && seg2.y <= pt.y && pt.y < seg1.y {
        wn := wn - 1;
      }
      seg1 := seg2;
      i := i + 1;
    }
    assert pa[..|pa|] == pa;
    if wn == 0 {
      return Outside, wn;
    }
    return Inside, wn;
  }

  lemma NoEdge(a: Point2D, pt: Point2D)
    ensures Turn(a, a, pt) == 0 && !OnHalfOpen(pt, a, a)
  {
  }

  lemma OffLevel(a: Point2D, b: Point2D, pt: Point2D)
    requires (pt.y > a.y && pt.y > b.y) || (pt.y < a.y && pt.y < b.y)
    ensures Turn(a, b, pt) == 0 && !OnHalfOpen(pt, a, b)
  {
    if OnHalfOpen(pt, a, b) {
      var t :| 0.0 <= t < 1.0 && pt == Lerp(a, b, t);
      BetweenEnds(a.y, b.y, t, pt.y);
    }
  }

  datatype InRing = NotClosed | Odd(inside: bool)

  /** pt_in_ring_2d; the source compares the end points bit by bit. */
  method PtInRing2d(p: Point2D, ring: seq<Point2D>) returns (r: InRing)
    requires |ring| > 0
    ensures r == NotClosed <==> ring[0] != ring[|ring| - 1]
    ensures r.Odd? ==> (r.inside <==> Crossings(ring, p) % 2 == 1)
    ensures r.Odd? ==> (r.inside <==> (|Upward(ring, p)| + |Downward(ring, p)|) % 2 == 1)
  {
    hide Upward, Downward, Winding, Turn;
    var cn := 0;
    if ring[0] != ring[|ring| - 1] {
      return NotClosed;
    }
    var v1 := ring[0];
    var i := 0;
    while i < |ring| - 1
      invariant 0 <= i <= |ring| - 1 && v1 == ring[i] && cn == Crossings(ring[..i+1], p)
    {
      var v2 := ring[i+1];
      assert ring[..i+2][..i+1] == ring[..i+1];
      if (v1.y <= p.y && v2.y > p.y) || (v1.y > p.y && v2.y <= p.y) {
        var vt := (p.y - v1.y) / (v2.y - v1.y);
        if p.x < v1.x + vt * (v2.x - v1.x) {
          cn := cn + 1;
        }
      }
      v1 := v2;
      i := i + 1;
    }
    assert ring[..|ring|] == ring;
    NumbersCount(ring, p);
    return Odd(cn % 2 == 1);
  }

  /** The least box that bounds some vertices. */
  ghost predicate Least(g: GBox, l: seq<Point2D>) {
    && Bounds(g, l)
    && forall h: GBox :: Bounds(h, l) ==> h.xmin <= g.xmin && g.xmax <= h.xmax && h.ymin <= g.ymin && g.ymax <= h.ymax
  }

  function Widen(g: GBox, p: Point2D): GBox {
    GBox(if g.xmin < p.x then g.xmin else p.x, if g.xmax > p.x then g.xmax else p.x,
         if g.ymin < p.y then g.ymin else p.y, if g.ymax > p.y then g.ymax else p.y)
  }

  lemma WidenIsLeast(g: GBox, l: seq<Point2D>, p: Point2D)
    requires Least(g, l)
    ensures Least(Widen(g, p), l + [p])
  {
    forall h: GBox | Bounds(h, l + [p])
      ensures Bounds(h, l) && InBox(p, h)
    {
      assert forall i :: 0 <= i < |l| ==> (l + [p])[i] == l[i];
      assert (l + [p])[|l|] == p;
    }
  }

  /** ptarray_calculate_gbox_cartesian, in the plane. */
  method CalculateGbox(pa: seq<Point2D>) returns (g: GBox)
    requires |pa| > 0
    ensures Least(g, pa)
  {
    g := GBox(pa[0].x, pa[0].x, pa[0].y, pa[0].y);
    OneVertex(pa[0]);
    assert pa[..1] == [pa[0]];
    hide Least;
    for i := 1 to |pa|
      invariant Least(g, pa[..i])
    {
      assert pa[..i+1] == pa[..i] + [pa[i]];
      WidenIsLeast(g, pa[..i], pa[i]);
      g := GBox(if g.xmin < pa[i].x then g.xmin else pa[i].x, if g.xmax > pa[i].x then g.xmax else pa[i].x,
                if g.ymin < pa[i].y then g.ymin else pa[i].y, if g.ymax > pa[i].y then g.ymax else pa[i].y);
    }
    assert pa[..|pa|] == pa;
  }

  lemma OneVertex(p: Point2D)
    ensures Least(GBox(p.x, p.x, p.y, p.y), [p])
  {
    forall h: GBox | Bounds(h, [p])
      ensures InBox(p, h)
    {
      assert [p][0] == p;
    }
  }

  // ---- What the two algorithms agree on ----

  ghost predicate TwoVertices(ring: seq<Point2D>) {
    exists a, b :: 0 <= a < |ring| && 0 <= b < |ring| && ring[a] != ring[b]
  }

  /** Run both on an exactly closed ring.  The boundary is found if and only if the ring
      has two distinct vertices; off the boundary the two answers have one parity. */
  method CompareContainment(ring: seq<Point2D>, pt: Point2D) returns (res: Containment, odd: bool)
    requires |ring| > 0 && ring[0] == ring[|ring| - 1]
    ensures res == Boundary <==> pt in Path(ring) && TwoVertices(ring)
    ensures res == Outside ==> !odd
    ensures res == Inside || res == Outside ==> (odd <==> Winding(ring, pt) % 2 != 0)
    ensures res != Unclosed
  {
    hide Path, TwoVertices, OnSomeHalfOpen, Winding, Crossings, Upward, Downward;
    var wn;
    res, wn := ContainsPointPartial(ring, pt, true);
    var r := PtInRing2d(pt, ring);
    odd := r.inside;
    BoundaryOfClosed(ring, pt);
    SameParity(ring, pt);
  }

  /** The boundary the algorithm looks for, on an exactly closed ring. */
  lemma BoundaryOfClosed(ring: seq<Point2D>, pt: Point2D)
    requires |ring| > 0 && ring[0] == ring[|ring| - 1]
    ensures OnSomeHalfOpen(ring, pt, |ring|) <==> pt in Path(ring) && TwoVertices(ring)
  {
    hide OnHalfOpen;
    if TwoVertices(ring) {
      var a, b :| 0 <= a < |ring| && 0 <= b < |ring| && ring[a] != ring[b];
      HalfOpenCovers(ring, pt, a, b);
    } else {
      forall i | 0 < i < |ring|
        ensures !OnHalfOpen(pt, ring[i-1], ring[i])
      {
        NoProperEdge(ring[i-1], pt);
      }
    }
  }

  lemma NoProperEdge(a: Point2D, pt: Point2D)
    ensures !OnHalfOpen(pt, a, a)
  {
  }

  /** A point outside the computed box of a closed ring is classified as outside. */
  method OutsideOfBox(ring: seq<Point2D>, pt: Point2D) returns (g: GBox, res: Containment)
    requires |ring| > 0 && ring[0] == ring[|ring| - 1]
    ensures Bounds(g, ring) && (!InBox(pt, g) ==> res == Outside)
  {
    g := CalculateGbox(ring);
    var wn;
    res, wn := ContainsPointPartial(ring, pt, true);
    if !InBox(pt, g) {
      OutsideBox(ring, pt, g);
    }
  }

  // ---- Reversal ----

  lemma TurnReversed(a: Point2D, b: Point2D, pt: Point2D)
    ensures Turn(b, a, pt) == -Turn(a, b, pt)
  {
    SideReversed(a, b, pt);
  }

  lemma SideReversed(a: Point2D, b: Point2D, pt: Point2D)
    ensures SideValue(b, a, pt) == -SideValue(a, b, pt)
  {
  }

  lemma {:induction false} WindingFromFront(pa: seq<Point2D>, pt: Point2D)
    requires |pa| >= 2
    ensures Winding(pa, pt) == Turn(pa[0], pa[1], pt) + Winding(pa[1..], pt)
  {
    hide Turn;
    if |pa| > 2 {
      var init := pa[..|pa| - 1];
      WindingFromFront(init, pt);
      assert pa[1..][..|pa| - 2] == init[1..];
    } else {
      assert |pa[1..]| < 2 && |pa[..1]| < 2;
    }
  }

  /** Reversing a ring negates its winding number. */
  lemma {:induction false} ReversedWinding(pa: seq<Point2D>, pt: Point2D)
    ensures Winding(PA.Reversed(pa), pt) == -Winding(pa, pt)
  {
    hide Turn;
    var r := PA.Reversed(pa);
    if |pa| >= 2 {
      var n := |pa|;
      ReversedWinding(pa[..n-1], pt);
      WindingFromFront(r, pt);
      assert r[1..] == PA.Reversed(pa[..n-1]);
      TurnReversed(pa[n-2], pa[n-1], pt);
    }
  }

  function Flat(s: seq<PA.Point4D>): (f: seq<Point2D>)
    ensures |f| == |s| && forall i :: 0 <= i < |s| ==> f[i] == Point2D(s[i].x, s[i].y)
  {
    seq(|s|, i requires 0 <= i < |s| => Point2D(s[i].x, s[i].y))
  }

  /** ptarray_reverse on the ring itself: the array afterwards winds the other way. */
  method ReverseRing(ring: PA.PointArray, pt: Point2D)
    requires ring.Valid()
    modifies ring.points
    ensures ring.Valid() && Winding(Flat(ring.Contents()), pt) == -Winding(Flat(old(ring.Contents())), pt)
  {
    ghost var before := Flat(ring.Contents());
    ring.Reverse();
    assert Flat(ring.Contents()) == PA.Reversed(before);
    ReversedWinding(before, pt);
  }

  /** The reversed polyline draws the same points. */
  lemma PathReversed(pts: seq<Point2D>)
    requires |pts| > 0
    ensures Path(PA.Reversed(pts)) == Path(pts)
  {
    hide Seg;
    var r := PA.Reversed(pts);
    if |pts| > 1 {
      EdgesReversed(pts);
      EdgesReversed(r);
      assert PA.Reversed(r) == pts;
    }
  }

  lemma EdgesReversed(pts: seq<Point2D>)
    ensures forall p :: OnSomeEdge(p, pts) ==> OnSomeEdge(p, PA.Reversed(pts))
  {
    hide Seg;
    var r, n := PA.Reversed(pts), |pts|;
    forall p | OnSomeEdge(p, pts)
      ensures OnSomeEdge(p, r)
    {
      var i: nat :| i + 1 < n && p in Edge(pts, i);
      SegReverse(pts[i], pts[i+1]);
      assert p in Edge(r, n - 2 - i);
    }
  }

  lemma HalfOpenInPath(ring: seq<Point2D>, pt: Point2D)
    requires |ring| > 0 && OnSomeHalfOpen(ring, pt, |ring|)
    ensures pt in Path(ring)
  {
    var i :| 0 < i < |ring| && OnHalfOpen(pt, ring[i-1], ring[i]);
    var t :| 0.0 <= t < 1.0 && pt == Lerp(ring[i-1], ring[i], t);
    OnSegment(ring[i-1], ring[i], t);
    EdgeInPath(ring, i - 1);
  }

  lemma TwoVerticesReversed(ring: seq<Point2D>)
    ensures TwoVertices(PA.Reversed(ring)) <==> TwoVertices(ring)
  {
    var r, n := PA.Reversed(ring), |ring|;
    if TwoVertices(ring) {
      var a, b :| 0 <= a < n && 0 <= b < n && ring[a] != ring[b];
      assert r[n - 1 - a] != r[n - 1 - b];
    }
    if TwoVertices(r) {
      var a, b :| 0 <= a < n && 0 <= b < n && r[a] != r[b];
      assert ring[n - 1 - a] != ring[n - 1 - b];
    }
  }

  /** Whether a ring runs one way or the other does not matter to what it contains: the
      answer is the same after the array is reversed in place, for every exactly closed ring,
      and for every point off the ring. */
  method ContainmentReversed(ring: PA.PointArray, pt: Point2D, checkClosed: bool) returns (first: Containment, second: Containment)
    requires ring.Valid() && ring.npoints > 0
    modifies ring.points
    ensures ring.Valid() && ring.Contents() == PA.Reversed(old(ring.Contents()))
    ensures var pts := Flat(old(ring.Contents()));
            pts[0] == pts[|pts| - 1] || pt !in Path(pts) ==> first == second
  {
    hide Path, OnSomeHalfOpen, TwoVertices, Winding;
    var wn;
    var before := Flat(ring.Contents());
    first, wn := ContainsPointPartial(before, pt, checkClosed);
    ring.Reverse();
    var after := Flat(ring.Contents());
    assert after == PA.Reversed(before);
    second, wn := ContainsPointPartial(after, pt, checkClosed);
    ReversedWinding(before, pt);
    SameBoundary(before, pt);
  }

  lemma SameBoundary(ring: seq<Point2D>, pt: Point2D)
    requires |ring| > 0
    ensures ring[0] == ring[|ring| - 1] || pt !in Path(ring)
            ==> (OnSomeHalfOpen(PA.Reversed(ring), pt, |ring|) <==> OnSomeHalfOpen(ring, pt, |ring|))
  {
    hide Path, OnSomeHalfOpen, TwoVertices;
    var r := PA.Reversed(ring);
    PathReversed(ring);
    if ring[0] == ring[|ring| - 1] {
      TwoVerticesReversed(ring);
      BoundaryOfClosed(ring, pt);
      BoundaryOfClosed(r, pt);
    } else if pt !in Path(ring) {
      if OnSomeHalfOpen(r, pt, |r|) {
        HalfOpenInPath(r, pt);
      }
      if OnSomeHalfOpen(ring, pt, |ring|) {
        HalfOpenInPath(ring, pt);
      }
    }
  }
}
