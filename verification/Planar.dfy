/** Planar points, segments and polylines as point sets, with the metric facts
    the two-dimensional distance engine rests on. */
module Planar {
  import opened Convex

  datatype Point2D = Point2D(x: real, y: real)

  /** The squared length of a vector and the inner product of two. Lemmas on points hide
      them: the solver then does not multiply coordinates out. */
  function Norm2(x: real, y: real): real { x*x + y*y }

  function Inner(x: real, y: real, u: real, v: real): real { x*u + y*v }

  /** The area spanned by two vectors, with its sign. */
  function Area(x: real, y: real, u: real, v: real): real { x*v - y*u }

  lemma NormOffset(x: real, y: real, u: real, v: real, t: real)
    ensures Norm2(x - t*u, y - t*v) == Norm2(x, y) + (t*t*Norm2(u, v) - 2.0*t*Inner(x, y, u, v))
  {
  }

  lemma Lagrange(x: real, y: real, u: real, v: real)
    ensures Norm2(u, v)*Norm2(x, y) == Inner(x, y, u, v)*Inner(x, y, u, v) + Area(x, y, u, v)*Area(x, y, u, v)
  {
  }

  lemma NormPair(x: real, y: real, u: real, v: real, u': real, v': real, s: real, t: real)
    ensures Norm2(x + s*u - t*u', y + s*v - t*v')
            == Quad(Norm2(u, v), Inner(u, v, u', v'), Norm2(u', v'),
                    Inner(u, v, x, y), Inner(u', v', x, y), Norm2(x, y)).At(s, t)
  {
  }

  lemma NormOpposite(x: real, y: real, x': real, y': real)
    requires x' == -x && y' == -y
    ensures Norm2(x', y') == Norm2(x, y)
  {
  }

  /** Squared Euclidean distance. */
  function Dist2(p: Point2D, q: Point2D): real {
    Norm2(q.x - p.x, q.y - p.y)
  }

  /** The point at fraction t of the way from A to B. */
  function Lerp(A: Point2D, B: Point2D, t: real): Point2D {
    Point2D(A.x + t*(B.x - A.x), A.y + t*(B.y - A.y))
  }

  /** All points of the closed segment AB. */
  ghost function Seg(A: Point2D, B: Point2D): iset<Point2D> {
    iset t: real | InUnit(t) :: Lerp(A, B, t)
  }

  /** All points of a polyline; a single vertex is its own polyline. */
  ghost function Path(pts: seq<Point2D>): iset<Point2D>
    requires |pts| > 0
  {
    if |pts| == 1 then iset{pts[0]}
    else iset p: Point2D | OnSomeEdge(p, pts)
  }

  ghost function Edge(pts: seq<Point2D>, i: nat): iset<Point2D>
    requires i + 1 < |pts|
  {
    Seg(pts[i], pts[i+1])
  }

  ghost predicate OnSomeEdge(p: Point2D, pts: seq<Point2D>) {
    exists i: nat :: i + 1 < |pts| && p in Edge(pts, i)
  }

  /** The inner product (p - A).(B - A) and the squared length of AB. */
  function Dot(p: Point2D, A: Point2D, B: Point2D): real {
    Inner(p.x - A.x, p.y - A.y, B.x - A.x, B.y - A.y)
  }

  function Length2(A: Point2D, B: Point2D): real {
    Norm2(B.x - A.x, B.y - A.y)
  }

  lemma Dist2Symmetric(p: Point2D, q: Point2D)
    ensures Dist2(p, q) == Dist2(q, p) >= 0.0
  {
  }

  lemma Dist2Zero(p: Point2D)
    ensures Dist2(p, p) == 0.0
  {
  }

  lemma EndsOnSegment(A: Point2D, B: Point2D)
    ensures Lerp(A, B, 0.0) == A && Lerp(A, B, 1.0) == B
    ensures A in Seg(A, B) && B in Seg(A, B)
  {
    assert InUnit(0.0) && InUnit(1.0);
  }

  lemma OnSegment(A: Point2D, B: Point2D, t: real)
    requires InUnit(t)
    ensures Lerp(A, B, t) in Seg(A, B)
  {
  }

  lemma DegenerateSegment(A: Point2D)
    ensures Seg(A, A) == iset{A}
  {
    EndsOnSegment(A, A);
  }

  lemma LerpReverse(A: Point2D, B: Point2D, t: real)
    ensures Lerp(B, A, 1.0 - t) == Lerp(A, B, t)
  {
  }

  lemma SegReverse(A: Point2D, B: Point2D)
    ensures Seg(A, B) == Seg(B, A)
  {
    forall p
      ensures p in Seg(A, B) <==> p in Seg(B, A)
    {
      if p in Seg(A, B) {
        var t :| InUnit(t) && p == Lerp(A, B, t);
        LerpReverse(A, B, t);
        OnSegment(B, A, 1.0 - t);
      }
      if p in Seg(B, A) {
        var t :| InUnit(t) && p == Lerp(B, A, t);
        LerpReverse(B, A, t);
        OnSegment(A, B, 1.0 - t);
      }
    }
  }

  lemma LengthPositive(A: Point2D, B: Point2D)
    requires A != B
    ensures Length2(A, B) > 0.0
  {
    var z := SquareSumPositive(B.x - A.x, B.y - A.y);
  }

  lemma SquareSumPositive(u: real, v: real) returns (z: real)
    requires u != 0.0 || v != 0.0
    ensures z == u*u + v*v && z > 0.0
  {
    var a := SquareNonNegative(u);
    var b := SquareNonNegative(v);
    if u != 0.0 {
      a := SquarePositive(u);
    } else {
      b := SquarePositive(v);
    }
    z := a + b;
  }

  /** Distance to a point of a line, as a parabola in the parameter whose vertex
      is the projection r. */
  lemma DistanceAlong(p: Point2D, A: Point2D, B: Point2D, r: real, t: real)
    requires r * Length2(A, B) == Dot(p, A, B)
    ensures Dist2(p, Lerp(A, B, t)) == Dist2(p, A) + Length2(A, B)*Parabola(r, t)
  {
    hide Parabola;
    DistanceOffset(p, A, B, t);
    hide Dist2, Length2, Dot, Lerp;
    ScaledParabola(Length2(A, B), Dot(p, A, B), r, t);
  }

  lemma SameOffset(l: real, l': real, dot: real, dot': real, t: real)
    requires l == l' && dot == dot'
    ensures t*t*l - 2.0*t*dot == t*t*l' - 2.0*t*dot'
  {
  }

  lemma DistanceOffset(p: Point2D, A: Point2D, B: Point2D, t: real)
    ensures Dist2(p, Lerp(A, B, t)) == Dist2(p, A) + (t*t*Length2(A, B) - 2.0*t*Dot(p, A, B))
  {
    hide Norm2, Inner;
    var x, y, u, v := p.x - A.x, p.y - A.y, B.x - A.x, B.y - A.y;
    NormOffset(x, y, u, v, t);
    NormOpposite(x, y, A.x - p.x, A.y - p.y);
    var q := Lerp(A, B, t);
    NormOpposite(x - t*u, y - t*v, q.x - p.x, q.y - p.y);
    SameOffset(Length2(A, B), Norm2(u, v), Dot(p, A, B), Inner(x, y, u, v), t);
  }

  lemma Projection(p: Point2D, A: Point2D, B: Point2D) returns (r: real)
    requires A != B
    ensures r * Length2(A, B) == Dot(p, A, B)
    ensures Length2(A, B) > 0.0 && r == Dot(p, A, B) / Length2(A, B)
  {
    hide Dot, Length2;
    LengthPositive(A, B);
    r := Dot(p, A, B) / Length2(A, B);
  }

  /** No point of AB is nearer to p than the clamped projection. */
  lemma NearestOnSegment(p: Point2D, A: Point2D, B: Point2D, r: real, q: Point2D)
    requires A != B && r * Length2(A, B) == Dot(p, A, B)
    requires q in Seg(A, B)
    ensures Dist2(p, Lerp(A, B, Nearest(r))) <= Dist2(p, q)
  {
    hide Dist2, Length2, Dot, Parabola, Lerp, Nearest;
    var t :| InUnit(t) && q == Lerp(A, B, t);
    DistanceAlong(p, A, B, r, t);
    DistanceAlong(p, A, B, r, Nearest(r));
    NearestIsLowest(r, t);
    LengthPositive(A, B);
    ScaledLess(Length2(A, B), Parabola(r, Nearest(r)), Parabola(r, t));
  }

  /** No point of AB is farther from p than the end on the other side of the
      midpoint from the projection. */
  lemma FarthestOnSegment(p: Point2D, A: Point2D, B: Point2D, r: real, q: Point2D)
    requires A != B && r * Length2(A, B) == Dot(p, A, B)
    requires q in Seg(A, B)
    ensures Dist2(p, q) <= Dist2(p, if r >= 0.5 then A else B)
  {
    EndsOnSegment(A, B);
    hide Dist2, Length2, Dot, Parabola, Lerp;
    var t :| InUnit(t) && q == Lerp(A, B, t);
    var e := if r >= 0.5 then 0.0 else 1.0;
    DistanceAlong(p, A, B, r, t);
    DistanceAlong(p, A, B, r, e);
    ParabolaHighest(r, t);
    LengthPositive(A, B);
    ScaledLess(Length2(A, B), Parabola(r, t), Parabola(r, e));
  }

  /** Twice the area of the triangle, with its sign. */
  function Across(p: Point2D, A: Point2D, B: Point2D): real {
    (A.y - p.y)*(B.x - A.x) - (A.x - p.x)*(B.y - A.y)
  }

  /** distance2d_sqr_pt_seg: squared distance of a point from a segment. */
  function PtSegDist2(p: Point2D, A: Point2D, B: Point2D): real {
    if A == B then Dist2(p, A)
    else
      LengthPositive(A, B);
      var L := Length2(A, B);
      var r := Dot(p, A, B) / L;
      if r < 0.0 then Dist2(p, A)
      else if r > 1.0 then Dist2(p, B)
      else
        var s := Across(p, A, B) / L;
        s * s * L
  }

  lemma FootScalar(L: real, W: real, c: real, dot: real, r: real, s: real)
    requires L > 0.0 && r*L == dot && s*L == c && L*W == dot*dot + c*c
    ensures s*s*L == W + L*Parabola(r, r)
  {
    assert L*(s*s*L) == (s*L)*(s*L);
    assert L*(W + L*(r*r - 2.0*r*r)) == L*W - (r*L)*(r*L);
    NonZeroFactor(L, s*s*L - (W + L*(r*r - 2.0*r*r)));
  }

  /** The perpendicular form of the distance agrees with the foot of the perpendicular. */
  lemma PerpendicularDistance(p: Point2D, A: Point2D, B: Point2D, r: real, s: real)
    requires A != B && r*Length2(A, B) == Dot(p, A, B) && s*Length2(A, B) == Across(p, A, B)
    ensures s*s*Length2(A, B) == Dist2(p, Lerp(A, B, r))
  {
    LengthPositive(A, B);
    DistanceAlong(p, A, B, r, r);
    PerpendicularForm(p, A, B, r, s);
    hide Dist2, Length2, Dot, Lerp, Across;
  }

  lemma PerpendicularForm(p: Point2D, A: Point2D, B: Point2D, r: real, s: real)
    requires Length2(A, B) > 0.0 && r*Length2(A, B) == Dot(p, A, B) && s*Length2(A, B) == Across(p, A, B)
    ensures s*s*Length2(A, B) == Dist2(p, A) + Length2(A, B)*Parabola(r, r)
  {
    AcrossIsArea(p, A, B);
    hide Norm2, Inner, Area, Across, Parabola;
    var x, y, u, v := p.x - A.x, p.y - A.y, B.x - A.x, B.y - A.y;
    Lagrange(x, y, u, v);
    NormOpposite(x, y, A.x - p.x, A.y - p.y);
    FootScalar(Norm2(u, v), Norm2(x, y), Area(x, y, u, v), Inner(x, y, u, v), r, s);
  }

  lemma AcrossIsArea(p: Point2D, A: Point2D, B: Point2D)
    ensures Across(p, A, B) == Area(p.x - A.x, p.y - A.y, B.x - A.x, B.y - A.y)
  {
  }

  lemma PtSegDist2IsFoot(p: Point2D, A: Point2D, B: Point2D, r: real)
    requires A != B && Length2(A, B) > 0.0 && r == Dot(p, A, B) / Length2(A, B)
    ensures r*Length2(A, B) == Dot(p, A, B)
    ensures PtSegDist2(p, A, B) == Dist2(p, Lerp(A, B, Nearest(r)))
  {
    hide Dist2, Dot, Length2, Across;
    DivideBack(Dot(p, A, B), Length2(A, B));
    if r < 0.0 || r > 1.0 {
      EndsOnSegment(A, B);
    } else {
      DivideBack(Across(p, A, B), Length2(A, B));
      PerpendicularDistance(p, A, B, r, Across(p, A, B) / Length2(A, B));
    }
  }

  /** It is the least squared distance to a point of the segment, and one attains it. */
  lemma PtSegDist2Exact(p: Point2D, A: Point2D, B: Point2D) returns (q: Point2D)
    ensures q in Seg(A, B) && PtSegDist2(p, A, B) == Dist2(p, q)
    ensures forall q' :: q' in Seg(A, B) ==> Dist2(p, q) <= Dist2(p, q')
  {
    if A == B {
      DegenerateSegment(A);
      return A;
    }
    LengthPositive(A, B);
    hide Dist2, Dot, Length2, PtSegDist2, Nearest, Lerp;
    var r := Dot(p, A, B) / Length2(A, B);
    PtSegDist2IsFoot(p, A, B, r);
    q := Lerp(A, B, Nearest(r));
    OnSegment(A, B, Nearest(r));
    forall q' | q' in Seg(A, B)
      ensures Dist2(p, q) <= Dist2(p, q')
    {
      NearestOnSegment(p, A, B, r, q');
    }
  }

  // ---- Polylines ----

  lemma EdgeInPath(pts: seq<Point2D>, i: nat)
    requires i + 1 < |pts|
    ensures Edge(pts, i) <= Path(pts)
  {
  }

  lemma VertexInPath(pts: seq<Point2D>, i: nat)
    requires i < |pts|
    ensures pts[i] in Path(pts)
  {
    if |pts| > 1 {
      var e := if i + 1 < |pts| then i else i - 1;
      EndsOnSegment(pts[e], pts[e+1]);
      EdgeInPath(pts, e);
    }
  }

  /** The edge a point of a polyline lies on; the lone vertex is an edge to itself. */
  lemma EdgeOf(p: Point2D, pts: seq<Point2D>) returns (i: nat, j: nat)
    requires |pts| > 0 && p in Path(pts)
    ensures i < |pts| && j < |pts| && p in Seg(pts[i], pts[j])
    ensures |pts| > 1 ==> j == i + 1
  {
    if |pts| == 1 {
      i, j := 0, 0;
      EndsOnSegment(pts[0], pts[0]);
    } else {
      i :| i + 1 < |pts| && p in Edge(pts, i);
      j := i + 1;
    }
  }

  // ---- Boxes ----

  datatype GBox = GBox(xmin: real, xmax: real, ymin: real, ymax: real)

  predicate Overlaps2d(g1: GBox, g2: GBox) {
    !(g1.xmax < g2.xmin || g1.ymax < g2.ymin || g1.xmin > g2.xmax || g1.ymin > g2.ymax)
  }

  predicate InBox(p: Point2D, g: GBox) {
    g.xmin <= p.x <= g.xmax && g.ymin <= p.y <= g.ymax
  }

  ghost predicate Bounds(g: GBox, l: seq<Point2D>) {
    forall i :: 0 <= i < |l| ==> InBox(l[i], g)
  }

  lemma BetweenEnds(a: real, b: real, t: real, m: real)
    requires InUnit(t) && m == a + t*(b - a)
    ensures a <= m <= b || b <= m <= a
  {
    if a <= b {
      ProductNonNegative(t, b - a);
      ProductNonNegative(1.0 - t, b - a);
    } else {
      ProductNonNegative(t, a - b);
      ProductNonNegative(1.0 - t, a - b);
    }
  }

  lemma SegmentInBox(p: Point2D, A: Point2D, B: Point2D, g: GBox)
    requires p in Seg(A, B) && InBox(A, g) && InBox(B, g)
    ensures InBox(p, g)
  {
    var t :| InUnit(t) && p == Lerp(A, B, t);
    BetweenEnds(A.x, B.x, t, p.x);
    BetweenEnds(A.y, B.y, t, p.y);
  }

  // ---- Two segments ----

  /** The squared distance between points of AB and CD, as a quadratic form. */
  function SegQuad(A: Point2D, B: Point2D, C: Point2D, D: Point2D): Quad {
    var ux, uy, vx, vy, wx, wy := B.x - A.x, B.y - A.y, D.x - C.x, D.y - C.y, A.x - C.x, A.y - C.y;
    Quad(Norm2(ux, uy), Inner(ux, uy, vx, vy), Norm2(vx, vy), Inner(ux, uy, wx, wy), Inner(vx, vy, wx, wy), Norm2(wx, wy))
  }

  lemma SegQuadIsDistance(A: Point2D, B: Point2D, C: Point2D, D: Point2D, s: real, t: real)
    ensures SegQuad(A, B, C, D).At(s, t) == Dist2(Lerp(A, B, s), Lerp(C, D, t))
  {
    hide Norm2, Inner, Quad.At;
    var ux, uy, vx, vy, wx, wy := B.x - A.x, B.y - A.y, D.x - C.x, D.y - C.y, A.x - C.x, A.y - C.y;
    NormPair(wx, wy, ux, uy, vx, vy, s, t);
    var p, q := Lerp(A, B, s), Lerp(C, D, t);
    NormOpposite(wx + s*ux - t*vx, wy + s*uy - t*vy, q.x - p.x, q.y - p.y);
  }

  lemma FormScalar2(ux: real, uy: real, vx: real, vy: real, x: real, y: real)
    ensures (ux*ux + uy*uy)*x*x - 2.0*(ux*vx + uy*vy)*x*y + (vx*vx + vy*vy)*y*y
            == (x*ux - y*vx)*(x*ux - y*vx) + (x*uy - y*vy)*(x*uy - y*vy)
  {
  }

  lemma SegFormNonNegative(A: Point2D, B: Point2D, C: Point2D, D: Point2D, x: real, y: real)
    ensures SegQuad(A, B, C, D).Form(x, y) >= 0.0
  {
    var ux, uy, vx, vy := B.x - A.x, B.y - A.y, D.x - C.x, D.y - C.y;
    FormScalar2(ux, uy, vx, vy, x, y);
    var m, n := x*ux - y*vx, x*uy - y*vy;
    assert m*m >= 0.0 && n*n >= 0.0;
  }

  /** Zero exactly when AB and CD are parallel. */
  function Cross(A: Point2D, B: Point2D, C: Point2D, D: Point2D): real {
    (B.x - A.x)*(D.y - C.y) - (B.y - A.y)*(D.x - C.x)
  }

  lemma CrossingScalar(wx: real, wy: real, ux: real, uy: real, vx: real, vy: real, r: real, s: real)
    requires var bot := ux*vy - uy*vx;
             bot != 0.0 && r*bot == wy*vx - wx*vy && s*bot == wy*ux - wx*uy
    ensures wx + r*ux - s*vx == 0.0 && wy + r*uy - s*vy == 0.0
  {
    var bot := ux*vy - uy*vx;
    assert bot*(wx + r*ux - s*vx) == wx*bot + (r*bot)*ux - (s*bot)*vx;
    assert wx*bot + (wy*vx - wx*vy)*ux - (wy*ux - wx*uy)*vx == 0.0;
    assert bot*(wy + r*uy - s*vy) == wy*bot + (r*bot)*uy - (s*bot)*vy;
    assert wy*bot + (wy*vx - wx*vy)*uy - (wy*ux - wx*uy)*vy == 0.0;
    NonZeroFactor(bot, wx + r*ux - s*vx);
    NonZeroFactor(bot, wy + r*uy - s*vy);
  }

  /** The two solved parameters name the same point of both lines. */
  lemma LinesMeet(A: Point2D, B: Point2D, C: Point2D, D: Point2D, rTop: real, sTop: real, bot: real)
    requires bot == Cross(A, B, C, D) && bot != 0.0
    requires rTop == (A.y - C.y)*(D.x - C.x) - (A.x - C.x)*(D.y - C.y)
    requires sTop == (A.y - C.y)*(B.x - A.x) - (A.x - C.x)*(B.y - A.y)
    ensures Lerp(A, B, rTop / bot) == Lerp(C, D, sTop / bot)
  {
    DivideBack(rTop, bot);
    DivideBack(sTop, bot);
    var wx, wy, ux, uy, vx, vy := A.x - C.x, A.y - C.y, B.x - A.x, B.y - A.y, D.x - C.x, D.y - C.y;
    MeetScalar(wx, wy, ux, uy, vx, vy, rTop / bot, sTop / bot, bot);
  }

  lemma MeetScalar(wx: real, wy: real, ux: real, uy: real, vx: real, vy: real, r: real, s: real, bot: real)
    requires bot == ux*vy - uy*vx && bot != 0.0
    requires r*bot == wy*vx - wx*vy && s*bot == wy*ux - wx*uy
    ensures wx + r*ux - s*vx == 0.0 && wy + r*uy - s*vy == 0.0
  {
    CrossingScalar(wx, wy, ux, uy, vx, vy, r, s);
  }

  lemma ParallelScalar(ux: real, uy: real, vx: real, vy: real, k: real)
    requires ux*vy - uy*vx == 0.0
    requires k*(ux*ux + uy*uy) == ux*vx + uy*vy && ux*ux + uy*uy != 0.0
    ensures vx == k*ux && vy == k*uy
  {
    var a := ux*ux + uy*uy;
    assert a*(vx - k*ux) == a*vx - (k*a)*ux;
    assert a*vx - (ux*vx + uy*vy)*ux == -uy*(ux*vy - uy*vx);
    assert a*(vy - k*uy) == a*vy - (k*a)*uy;
    assert a*vy - (ux*vx + uy*vy)*uy == ux*(ux*vy - uy*vx);
    NonZeroFactor(a, vx - k*ux);
    NonZeroFactor(a, vy - k*uy);
  }

  lemma ParallelRatio(ux: real, uy: real, vx: real, vy: real) returns (k: real)
    requires ux*vy - uy*vx == 0.0 && (ux != 0.0 || uy != 0.0)
    ensures vx == k*ux && vy == k*uy
  {
    var z := SquareSumPositive(ux, uy);
    k := (ux*vx + uy*vy) / z;
    ParallelScalar(ux, uy, vx, vy, k);
  }

  /** Parallel segments: sliding both points in step keeps their distance. */
  lemma ParallelShift(A: Point2D, B: Point2D, C: Point2D, D: Point2D, s: real, t: real) returns (k: real)
    requires A != B && Cross(A, B, C, D) == 0.0
    ensures SegQuad(A, B, C, D).At(s + 2.0*k, t + 2.0) == SegQuad(A, B, C, D).At(s, t)
  {
    hide Quad.At, SegQuad, Dist2, Lerp;
    k := ParallelRatio(B.x - A.x, B.y - A.y, D.x - C.x, D.y - C.y);
    SegQuadIsDistance(A, B, C, D, s, t);
    SegQuadIsDistance(A, B, C, D, s + 2.0*k, t + 2.0);
    ShiftedPair(A, B, C, D, s, t, k);
  }

  lemma ShiftedPair(A: Point2D, B: Point2D, C: Point2D, D: Point2D, s: real, t: real, k: real)
    requires D.x - C.x == k*(B.x - A.x) && D.y - C.y == k*(B.y - A.y)
    ensures Dist2(Lerp(A, B, s + 2.0*k), Lerp(C, D, t + 2.0)) == Dist2(Lerp(A, B, s), Lerp(C, D, t))
  {
    hide Norm2, Lerp;
    var p, q, p', q' := Lerp(A, B, s), Lerp(C, D, t), Lerp(A, B, s + 2.0*k), Lerp(C, D, t + 2.0);
    LerpSteps(A, B, s, s + 2.0*k);
    LerpSteps(C, D, t, t + 2.0);
    StepAxis(D.x - C.x, B.x - A.x, k);
    StepAxis(D.y - C.y, B.y - A.y, k);
    assert q'.x - p'.x == q.x - p.x && q'.y - p'.y == q.y - p.y;
  }

  lemma LerpSteps(A: Point2D, B: Point2D, s: real, s': real)
    ensures var (p, p') := (Lerp(A, B, s), Lerp(A, B, s'));
            p'.x == p.x + (s' - s)*(B.x - A.x) && p'.y == p.y + (s' - s)*(B.y - A.y)
  {
  }

  lemma StepAxis(v: real, u: real, k: real)
    requires v == k*u
    ensures (2.0*k)*u == 2.0*v
  {
  }
}
