/** Points, segments and polylines in space, as point sets, with the metric facts
    the three-dimensional distance engine rests on. */
module Spatial {
  import opened Convex

  datatype Point3D = Point3D(x: real, y: real, z: real)

  /** The vector from p to q. */
  function Minus(q: Point3D, p: Point3D): Point3D {
    Point3D(q.x - p.x, q.y - p.y, q.z - p.z)
  }

  function Dot(u: Point3D, v: Point3D): real {
    u.x*v.x + u.y*v.y + u.z*v.z
  }

  function Dist2(p: Point3D, q: Point3D): real {
    Dot(Minus(q, p), Minus(q, p))
  }

  function Lerp(A: Point3D, B: Point3D, t: real): Point3D {
    Point3D(A.x + t*(B.x - A.x), A.y + t*(B.y - A.y), A.z + t*(B.z - A.z))
  }

  ghost function Seg(A: Point3D, B: Point3D): iset<Point3D> {
    iset t: real | InUnit(t) :: Lerp(A, B, t)
  }

  ghost function Edge(pts: seq<Point3D>, i: nat): iset<Point3D>
    requires i + 1 < |pts|
  {
    Seg(pts[i], pts[i+1])
  }

  ghost predicate OnSomeEdge(p: Point3D, pts: seq<Point3D>) {
    exists i: nat :: i + 1 < |pts| && p in Edge(pts, i)
  }

  /** All points of a polyline of two or more vertices. */
  ghost function Path(pts: seq<Point3D>): iset<Point3D> {
    iset p: Point3D | OnSomeEdge(p, pts)
  }

  lemma SquareSumPositive(u: real, v: real, w: real) returns (z: real)
    requires u != 0.0 || v != 0.0 || w != 0.0
    ensures z == u*u + v*v + w*w && z > 0.0
  {
    var a := SquareNonNegative(u);
    var b := SquareNonNegative(v);
    var c := SquareNonNegative(w);
    if u != 0.0 {
      a := SquarePositive(u);
    } else if v != 0.0 {
      b := SquarePositive(v);
    } else {
      c := SquarePositive(w);
    }
    z := a + b + c;
  }

  /** Squared Euclidean distance, in coordinates. */
  lemma Dist2Is(p: Point3D, q: Point3D, x: real, y: real, z: real)
    requires x == q.x - p.x && y == q.y - p.y && z == q.z - p.z
    ensures Dist2(p, q) == x*x + y*y + z*z
  {
  }

  lemma Dist2Symmetric(p: Point3D, q: Point3D)
    ensures Dist2(p, q) == Dist2(q, p) >= 0.0
  {
    OppositeSquare(q.x - p.x, p.x - q.x);
    OppositeSquare(q.y - p.y, p.y - q.y);
    OppositeSquare(q.z - p.z, p.z - q.z);
    var a := SquareNonNegative(q.x - p.x);
    var b := SquareNonNegative(q.y - p.y);
    var c := SquareNonNegative(q.z - p.z);
  }

  lemma LengthPositive(A: Point3D, B: Point3D)
    requires A != B
    ensures Dot(Minus(B, A), Minus(B, A)) > 0.0
  {
    var z := SquareSumPositive(B.x - A.x, B.y - A.y, B.z - A.z);
  }

  lemma EndsOnSegment(A: Point3D, B: Point3D)
    ensures Lerp(A, B, 0.0) == A && Lerp(A, B, 1.0) == B
    ensures A in Seg(A, B) && B in Seg(A, B)
  {
    assert InUnit(0.0) && InUnit(1.0);
  }

  lemma OnSegment(A: Point3D, B: Point3D, t: real)
    requires InUnit(t)
    ensures Lerp(A, B, t) in Seg(A, B)
  {
  }

  lemma DegenerateSegment(A: Point3D)
    ensures Seg(A, A) == iset{A}
  {
    EndsOnSegment(A, A);
  }

  /** The squared distance between points of AB and CD, as a quadratic form. */
  function SegQuad(A: Point3D, B: Point3D, C: Point3D, D: Point3D): Quad {
    var v1, v2, vl := Minus(B, A), Minus(D, C), Minus(A, C);
    Quad(Dot(v1, v1), Dot(v1, v2), Dot(v2, v2), Dot(v1, vl), Dot(v2, vl), Dot(vl, vl))
  }

  lemma TripleScalar(w: real, w': real, w'': real, u: real, u': real, u'': real,
                     v: real, v': real, v'': real, s: real, t: real)
    ensures (u*u + u'*u' + u''*u'')*s*s - 2.0*(u*v + u'*v' + u''*v'')*s*t + (v*v + v'*v' + v''*v'')*t*t
            + 2.0*(u*w + u'*w' + u''*w'')*s - 2.0*(v*w + v'*w' + v''*w'')*t + (w*w + w'*w' + w''*w'')
            == (w + s*u - t*v)*(w + s*u - t*v) + (w' + s*u' - t*v')*(w' + s*u' - t*v')
               + (w'' + s*u'' - t*v'')*(w'' + s*u'' - t*v'')
  {
  }

  lemma SegQuadIsDistance(A: Point3D, B: Point3D, C: Point3D, D: Point3D, s: real, t: real)
    ensures SegQuad(A, B, C, D).At(s, t) == Dist2(Lerp(A, B, s), Lerp(C, D, t))
  {
    var u, v, w := Minus(B, A), Minus(D, C), Minus(A, C);
    TripleScalar(w.x, w.y, w.z, u.x, u.y, u.z, v.x, v.y, v.z, s, t);
    OppositeSquare((C.x + t*v.x) - (A.x + s*u.x), w.x + s*u.x - t*v.x);
    OppositeSquare((C.y + t*v.y) - (A.y + s*u.y), w.y + s*u.y - t*v.y);
    OppositeSquare((C.z + t*v.z) - (A.z + s*u.z), w.z + s*u.z - t*v.z);
  }

  lemma LagrangeScalar(u: real, u': real, u'': real, v: real, v': real, v'': real)
    ensures (u*u + u'*u' + u''*u'')*(v*v + v'*v' + v''*v'')
            - (u*v + u'*v' + u''*v'')*(u*v + u'*v' + u''*v'')
            == (u*v' - u'*v)*(u*v' - u'*v) + (u*v'' - u''*v)*(u*v'' - u''*v) + (u'*v'' - u''*v')*(u'*v'' - u''*v')
  {
  }

  /** The determinant of two directions is a sum of squares, so never negative, and
      zero only for parallel directions. */
  lemma DeterminantNonNegative(A: Point3D, B: Point3D, C: Point3D, D: Point3D)
    ensures var q := SegQuad(A, B, C, D); q.a*q.c - q.b*q.b >= 0.0
  {
    var u, v := Minus(B, A), Minus(D, C);
    LagrangeScalar(u.x, u.y, u.z, v.x, v.y, v.z);
    var i := SquareNonNegative(u.x*v.y - u.y*v.x);
    var j := SquareNonNegative(u.x*v.z - u.z*v.x);
    var k := SquareNonNegative(u.y*v.z - u.z*v.y);
  }

  lemma CombinationScalar(b: real, c: real, u: real, u': real, u'': real, v: real, v': real, v'': real)
    ensures (c*u - b*v)*(c*u - b*v) + (c*u' - b*v')*(c*u' - b*v') + (c*u'' - b*v'')*(c*u'' - b*v'')
            == c*c*(u*u + u'*u' + u''*u'') - 2.0*(c*b)*(u*v + u'*v' + u''*v'') + b*b*(v*v + v'*v' + v''*v'')
  {
  }

  lemma AgainstScalar(b: real, c: real, u: real, u': real, u'': real, v: real, v': real, v'': real,
                      w: real, w': real, w'': real)
    ensures c*(u*w + u'*w' + u''*w'') - b*(v*w + v'*w' + v''*w'')
            == (c*u - b*v)*w + (c*u' - b*v')*w' + (c*u'' - b*v'')*w''
  {
  }

  /** Parallel directions: the two mixed products are in the same proportion. */
  lemma ParallelProportion(A: Point3D, B: Point3D, C: Point3D, D: Point3D)
    requires var q := SegQuad(A, B, C, D); q.a*q.c - q.b*q.b == 0.0
    ensures var q := SegQuad(A, B, C, D); q.c*q.d == q.b*q.e
  {
    var u, v, w, q := Minus(B, A), Minus(D, C), Minus(A, C), SegQuad(A, B, C, D);
    var x, y, z := q.c*u.x - q.b*v.x, q.c*u.y - q.b*v.y, q.c*u.z - q.b*v.z;
    CombinationScalar(q.b, q.c, u.x, u.y, u.z, v.x, v.y, v.z);
    AgainstScalar(q.b, q.c, u.x, u.y, u.z, v.x, v.y, v.z, w.x, w.y, w.z);
    CollapseScalar(q.a, q.b, q.c);
    if x != 0.0 || y != 0.0 || z != 0.0 {
      var m := SquareSumPositive(x, y, z);
    }
  }

  lemma CollapseScalar(a: real, b: real, c: real)
    requires a*c - b*b == 0.0
    ensures c*c*a - 2.0*(c*b)*b + b*b*c == 0.0
  {
    assert c*c*a - 2.0*(c*b)*b + b*b*c == c*(a*c - b*b);
  }

  lemma OffsetScalar(p: real, p': real, p'': real, a: real, a': real, a'': real,
                     b: real, b': real, b'': real, t: real)
    ensures (a + t*(b - a) - p)*(a + t*(b - a) - p) + (a' + t*(b' - a') - p')*(a' + t*(b' - a') - p')
            + (a'' + t*(b'' - a'') - p'')*(a'' + t*(b'' - a'') - p'')
            == (a - p)*(a - p) + (a' - p')*(a' - p') + (a'' - p'')*(a'' - p'')
               + t*t*((b - a)*(b - a) + (b' - a')*(b' - a') + (b'' - a'')*(b'' - a''))
               - 2.0*t*((p - a)*(b - a) + (p' - a')*(b' - a') + (p'' - a'')*(b'' - a''))
  {
  }

  lemma DistanceAlong(p: Point3D, A: Point3D, B: Point3D, r: real, t: real)
    requires r * Dot(Minus(B, A), Minus(B, A)) == Dot(Minus(p, A), Minus(B, A))
    ensures Dist2(p, Lerp(A, B, t)) == Dist2(p, A) + Dot(Minus(B, A), Minus(B, A))*Parabola(r, t)
  {
    hide Parabola;
    DistanceOffset(p, A, B, t);
    hide Dist2, Dot, Minus, Lerp;
    ScaledParabola(Dot(Minus(B, A), Minus(B, A)), Dot(Minus(p, A), Minus(B, A)), r, t);
  }

  lemma DistanceOffset(p: Point3D, A: Point3D, B: Point3D, t: real)
    ensures Dist2(p, Lerp(A, B, t))
            == Dist2(p, A) + (t*t*Dot(Minus(B, A), Minus(B, A)) - 2.0*t*Dot(Minus(p, A), Minus(B, A)))
  {
    OffsetScalar(p.x, p.y, p.z, A.x, A.y, A.z, B.x, B.y, B.z, t);
  }

  /** No point of AB is nearer to p than the clamped projection. */
  lemma NearestOnSegment(p: Point3D, A: Point3D, B: Point3D, r: real, q: Point3D)
    requires A != B && r * Dot(Minus(B, A), Minus(B, A)) == Dot(Minus(p, A), Minus(B, A))
    requires q in Seg(A, B)
    ensures Dist2(p, Lerp(A, B, Nearest(r))) <= Dist2(p, q)
  {
    hide Dist2, Dot, Minus, Parabola, Lerp, Nearest;
    var t :| InUnit(t) && q == Lerp(A, B, t);
    DistanceAlong(p, A, B, r, t);
    DistanceAlong(p, A, B, r, Nearest(r));
    NearestIsLowest(r, t);
    LengthPositive(A, B);
    ScaledLess(Dot(Minus(B, A), Minus(B, A)), Parabola(r, Nearest(r)), Parabola(r, t));
  }

  /** No point of AB is farther from p than the end on the other side of the midpoint from
      the projection. */
  lemma FarthestOnSegment(p: Point3D, A: Point3D, B: Point3D, r: real, q: Point3D)
    requires A != B && r * Dot(Minus(B, A), Minus(B, A)) == Dot(Minus(p, A), Minus(B, A))
    requires q in Seg(A, B)
    ensures Dist2(p, q) <= Dist2(p, if r >= 0.5 then A else B)
  {
    hide Dist2, Dot, Minus, Parabola, Lerp;
    EndsOnSegment(A, B);
    var t :| InUnit(t) && q == Lerp(A, B, t);
    var e := if r >= 0.5 then 0.0 else 1.0;
    DistanceAlong(p, A, B, r, t);
    DistanceAlong(p, A, B, r, e);
    ParabolaHighest(r, t);
    LengthPositive(A, B);
    ScaledLess(Dot(Minus(B, A), Minus(B, A)), Parabola(r, t), Parabola(r, e));
  }

  lemma FarthestIsEnd(p: Point3D, A: Point3D, B: Point3D, d2: real, q: Point3D)
    requires Dist2(p, A) <= d2 && Dist2(p, B) <= d2 && q in Seg(A, B)
    ensures Dist2(p, q) <= d2
  {
    hide Dist2, Dot, Minus, Lerp;
    if A == B {
      DegenerateSegment(A);
    } else {
      LengthPositive(A, B);
      var r := Dot(Minus(p, A), Minus(B, A)) / Dot(Minus(B, A), Minus(B, A));
      DivideBack(Dot(Minus(p, A), Minus(B, A)), Dot(Minus(B, A), Minus(B, A)));
      FarthestOnSegment(p, A, B, r, q);
    }
  }
}
