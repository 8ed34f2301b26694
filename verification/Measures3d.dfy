/** The three-dimensional distance engine of src/measures3d.c.
    As in the planar model, squares of distances stand for distances. */
module Measures3d {
  import opened Convex
  import opened Spatial

  datatype Record = Record(d2: real, p1: Point3D, p2: Point3D)

  ghost predicate NoneCloser(d2: real, X: iset<Point3D>, Y: iset<Point3D>) {
    forall p, q :: p in X && q in Y ==> d2 <= Dist2(p, q)
  }

  ghost predicate NoneFarther(d2: real, X: iset<Point3D>, Y: iset<Point3D>) {
    forall p, q :: p in X && q in Y ==> Dist2(p, q) <= d2
  }

  /** No pair of points from X and Y would replace the recorded square. */
  ghost predicate NoneBeats(mode: int, d2: real, X: iset<Point3D>, Y: iset<Point3D>) {
    if mode == DIST_MIN then NoneCloser(d2, X, Y) else NoneFarther(d2, X, Y)
  }

  ghost predicate Oriented(twisted: int, r: Record, X: iset<Point3D>, Y: iset<Point3D>) {
    if twisted > 0 then r.p1 in X && r.p2 in Y else r.p1 in Y && r.p2 in X
  }

  /** Nothing was recorded, or a strictly better pair: points of X and Y at the recorded
      distance. */
  ghost predicate Advanced(mode: int, twisted: int, before: Record, after: Record, X: iset<Point3D>, Y: iset<Point3D>) {
    || after == before
    || (&& Beats(mode, after.d2, before.d2)
        && Oriented(twisted, after, X, Y)
        && Dist2(after.p1, after.p2) == after.d2)
  }

  lemma AdvancedWider(mode: int, twisted: int, before: Record, mid: Record, after: Record,
                      X: iset<Point3D>, Y: iset<Point3D>, X': iset<Point3D>, Y': iset<Point3D>)
    requires Advanced(mode, twisted, before, mid, X, Y)
    requires Advanced(mode, twisted, mid, after, X', Y') && X' <= X && Y' <= Y
    ensures Advanced(mode, twisted, before, after, X, Y)
  {
  }

  lemma AdvancedFlip(mode: int, twisted: int, before: Record, after: Record, X: iset<Point3D>, Y: iset<Point3D>)
    requires twisted != 0 && Advanced(mode, -twisted, before, after, Y, X)
    ensures Advanced(mode, twisted, before, after, X, Y)
  {
  }

  lemma NoneCloserFlip(d2: real, X: iset<Point3D>, Y: iset<Point3D>)
    requires NoneCloser(d2, Y, X)
    ensures NoneCloser(d2, X, Y)
  {
    forall p, q | p in X && q in Y
      ensures d2 <= Dist2(p, q)
    {
      Dist2Symmetric(p, q);
    }
  }

  // ---- Two segments: which points the source tests ----

  function Det(q: Quad): real { q.a*q.c - q.b*q.b }

  /** Determinants below this count as parallel. */
  const PARALLEL := 0.000000001

  /** Where, on the two lines, the source looks for the closest points. */
  function LineParams(q: Quad): (real, real)
    requires q.c > 0.0
  {
    if Det(q) < PARALLEL then
      (0.0, if q.b > q.c then q.d / q.b else q.e / q.c)
    else
      ((q.b*q.e - q.c*q.d) / Det(q), (q.a*q.e - q.b*q.d) / Det(q))
  }

  /** The parameters of the best pair tested when the lines count as parallel. */
  function TestedParallel(q: Quad): (p: (real, real))
    requires q.a > 0.0 && q.c > 0.0
    ensures Det(q) < PARALLEL ==> InSquare(p.0, p.1)
  {
    var t := LineParams(q).1;
    if t < 0.0 then (Nearest(-q.d / q.a), 0.0)
    else if t > 1.0 then (Nearest((q.b - q.d) / q.a), 1.0)
    else (0.0, t)
  }

  /** The inputs on which testing only the violated ends is exact. */
  predicate Exact(A: Point3D, B: Point3D, C: Point3D, D: Point3D) {
    if A == B || C == D then true
    else
      var q := SegQuad(A, B, C, D);
      Det(q) >= 0.000000001 || (q.a > 0.0 && q.c > 0.0 && Stationary(q, TestedParallel(q).0, TestedParallel(q).1))
  }

  lemma Positive(A: Point3D, B: Point3D, C: Point3D, D: Point3D)
    requires A != B && C != D
    ensures var q := SegQuad(A, B, C, D); q.a > 0.0 && q.c > 0.0
  {
    LengthPositive(A, B);
    LengthPositive(C, D);
  }

  /** The clamped projection meets the first-order conditions on an edge of the square. */
  lemma ClampedIsStationary(a: real, n: real, s: real)
    requires a > 0.0 && s == Nearest(n / a)
    ensures (s < 1.0 ==> a*s - n >= 0.0) && (s > 0.0 ==> a*s - n <= 0.0)
    ensures InUnit(n / a) ==> a*s == n
  {
    var r := n / a;
    DivideBack(n, a);
    if r < 0.0 {
      var z := ProductPositive(a, -r);
      assert a*(-r) == -(r*a);
    } else if r >= 1.0 {
      ProductNonNegative(a, r - 1.0);
      assert a*(r - 1.0) == r*a - a;
    }
  }

  /** Exactly parallel segments are handled exactly. */
  lemma ParallelIsExact(A: Point3D, B: Point3D, C: Point3D, D: Point3D)
    requires A != B && C != D && Det(SegQuad(A, B, C, D)) == 0.0
    ensures Exact(A, B, C, D)
  {
    var q := SegQuad(A, B, C, D);
    Positive(A, B, C, D);
    ParallelProportion(A, B, C, D);
    hide SegQuad;
    ParallelStationary(q);
  }

  /** Exactly parallel, or at an angle the source does not take for none. */
  predicate ClearlyPlaced(A: Point3D, B: Point3D, C: Point3D, D: Point3D) {
    Det(SegQuad(A, B, C, D)) == 0.0 || Det(SegQuad(A, B, C, D)) >= 0.000000001
  }

  lemma ClearlyPlacedIsExact(A: Point3D, B: Point3D, C: Point3D, D: Point3D)
    requires ClearlyPlaced(A, B, C, D)
    ensures Exact(A, B, C, D)
  {
    if A != B && C != D && Det(SegQuad(A, B, C, D)) == 0.0 {
      ParallelIsExact(A, B, C, D);
    }
  }

  lemma SameProjection(b: real, c: real, d: real, e: real, t: real)
    requires c > 0.0 && c*d == b*e && t == if b > c then d / b else e / c
    ensures c*t == e && b*t == d
  {
    if b > c {
      DivideBack(d, b);
      assert b*(c*t - e) == c*(t*b) - b*e;
      NonZeroFactor(b, c*t - e);
    } else {
      DivideBack(e, c);
      assert c*(b*t - d) == b*(t*c) - c*d;
      NonZeroFactor(c, b*t - d);
    }
  }

  /** Sliding along the first of two parallel segments towards a point tau beyond an
      end of the second one never gets past it. */
  lemma ParallelOther(a: real, b: real, c: real, tau: real, n: real, s: real)
    requires a > 0.0 && c > 0.0 && a*c == b*b && n == -(b*tau) && s == Nearest(n / a)
    ensures tau < 0.0 ==> c*tau + b*s <= 0.0
    ensures tau > 0.0 ==> c*tau + b*s >= 0.0
  {
    DivideBack(n, a);
    var r := n / a;
    if r < 0.0 {
      ParallelSign(c, tau);
    } else if r < 1.0 {
      assert a*(c*tau + b*s) == (a*c)*tau + b*(s*a);
      assert (b*b)*tau + b*n == 0.0;
      NonZeroFactor(a, c*tau + b*s);
    } else {
      ProductNonNegative(a, r - 1.0);
      assert a*(r - 1.0) == r*a - a;
      ParallelBound(a, b, c, tau);
    }
  }

  lemma ParallelSign(c: real, tau: real)
    requires c > 0.0
    ensures tau < 0.0 ==> c*tau < 0.0
    ensures tau > 0.0 ==> c*tau > 0.0
  {
    if tau < 0.0 {
      var z := ProductPositive(c, -tau);
      assert c*(-tau) == -(c*tau);
    } else if tau > 0.0 {
      var z := ProductPositive(c, tau);
    }
  }

  lemma ParallelBound(a: real, b: real, c: real, tau: real)
    requires a > 0.0 && c > 0.0 && a*c == b*b && a <= -(b*tau)
    ensures tau < 0.0 ==> b <= -(c*tau)
    ensures tau > 0.0 ==> -b <= c*tau
  {
    var m, u := if tau < 0.0 then b else -b, if tau < 0.0 then -tau else tau;
    assert m*u == -(b*tau) && m*m == a*c && u >= 0.0;
    ProductNonNegative(c, m*u - a);
    assert c*(m*u - a) == m*(c*u) - m*m;
    assert m*(c*u - m) >= 0.0 by {
      assert m*(c*u - m) == m*(c*u) - m*m;
    }
    if c*u < m {
      ProductNonNegative(c, u);
      var z := ProductPositive(m, m - c*u);
      assert m*(m - c*u) == -(m*(c*u - m));
    }
  }

  lemma StationaryBelow(q: Quad, t: real, s: real)
    requires q.a > 0.0 && q.c > 0.0 && q.a*q.c == q.b*q.b && q.c*t == q.e && q.b*t == q.d
    requires t < 0.0 && s == Nearest(-q.d / q.a)
    ensures Stationary(q, s, 0.0)
  {
    ClampedIsStationary(q.a, -q.d, s);
    ParallelOther(q.a, q.b, q.c, t, -q.d, s);
  }

  lemma StationaryAbove(q: Quad, t: real, s: real)
    requires q.a > 0.0 && q.c > 0.0 && q.a*q.c == q.b*q.b && q.c*t == q.e && q.b*t == q.d
    requires t > 1.0 && s == Nearest((q.b - q.d) / q.a)
    ensures Stationary(q, s, 1.0)
  {
    ClampedIsStationary(q.a, q.b - q.d, s);
    assert q.b - q.d == -(q.b*(t - 1.0)) && q.c*(t - 1.0) == q.e - q.c;
    ParallelOther(q.a, q.b, q.c, t - 1.0, q.b - q.d, s);
  }

  lemma StationaryBetween(q: Quad, t: real)
    requires q.c*t == q.e && q.b*t == q.d
    ensures Stationary(q, 0.0, t)
  {
    assert q.a*0.0 - q.b*t + q.d == 0.0 && q.c*t - q.b*0.0 - q.e == 0.0;
  }

  lemma ParallelStationary(q: Quad)
    requires q.a > 0.0 && q.c > 0.0 && Det(q) == 0.0 && q.c*q.d == q.b*q.e
    ensures Stationary(q, TestedParallel(q).0, TestedParallel(q).1)
  {
    hide Stationary, Nearest;
    var t := LineParams(q).1;
    SameProjection(q.b, q.c, q.d, q.e, t);
    if t < 0.0 {
      StationaryBelow(q, t, Nearest(-q.d / q.a));
    } else if t > 1.0 {
      StationaryAbove(q, t, Nearest((q.b - q.d) / q.a));
    } else {
      StationaryBetween(q, t);
    }
  }

  /** The solved parameters are where the two lines come closest. */
  lemma SolvedIsMinimum(q: Quad, s: real, t: real)
    requires q.a > 0.0 && q.c > 0.0 && Det(q) >= PARALLEL
    ensures q.At(LineParams(q).0, LineParams(q).1) <= q.At(s, t)
  {
    hide Quad.At;
    var D, r0, s0 := Det(q), LineParams(q).0, LineParams(q).1;
    SolvedScalar(q.a, q.b, q.c, q.d, q.e, D, r0, s0);
    StationaryIsMinimum(q, r0, s0, s, t);
  }

  lemma SolvedScalar(a: real, b: real, c: real, d: real, e: real, D: real, r0: real, s0: real)
    requires D == a*c - b*b && D > 0.0
    requires r0 == (b*e - c*d) / D && s0 == (a*e - b*d) / D
    ensures a*r0 - b*s0 + d == 0.0 && c*s0 - b*r0 - e == 0.0
  {
    DivideBack(b*e - c*d, D);
    DivideBack(a*e - b*d, D);
    assert D*(a*r0 - b*s0 + d) == a*(r0*D) - b*(s0*D) + D*d;
    assert a*(b*e - c*d) - b*(a*e - b*d) + (a*c - b*b)*d == 0.0;
    assert D*(c*s0 - b*r0 - e) == c*(s0*D) - b*(r0*D) - D*e;
    assert c*(a*e - b*d) - b*(b*e - c*d) - (a*c - b*b)*e == 0.0;
    NonZeroFactor(D, a*r0 - b*s0 + d);
    NonZeroFactor(D, c*s0 - b*r0 - e);
  }

  /** Each end whose parameter fell outside [0,1] has been tested. */
  ghost predicate ViolatedEndsTested(d2: real, A: Point3D, B: Point3D, C: Point3D, D: Point3D, s1k: real, s2k: real) {
    && (s1k < 0.0 ==> NoneCloser(d2, iset{A}, Seg(C, D)))
    && (s1k > 1.0 ==> NoneCloser(d2, iset{B}, Seg(C, D)))
    && (s2k < 0.0 ==> NoneCloser(d2, iset{C}, Seg(A, B)))
    && (s2k > 1.0 ==> NoneCloser(d2, iset{D}, Seg(A, B)))
  }

  /** With well-conditioned lines the ends that were violated settle the minimum. */
  lemma ViolatedEndsSettle(A: Point3D, B: Point3D, C: Point3D, D: Point3D, d2: real)
    requires A != B && C != D && Det(SegQuad(A, B, C, D)) >= PARALLEL
    requires SegQuad(A, B, C, D).c > 0.0
    requires var (s1k, s2k) := LineParams(SegQuad(A, B, C, D));
             !InSquare(s1k, s2k) && ViolatedEndsTested(d2, A, B, C, D, s1k, s2k)
    ensures NoneCloser(d2, Seg(A, B), Seg(C, D))
  {
    hide Quad.At, Dist2, SegQuad, LineParams;
    var q := SegQuad(A, B, C, D);
    var (s1k, s2k) := LineParams(q);
    Positive(A, B, C, D);
    DeterminantNonNegative(A, B, C, D);
    EndsOnSegment(A, B);
    EndsOnSegment(C, D);
    forall p, p' | p in Seg(A, B) && p' in Seg(C, D)
      ensures d2 <= Dist2(p, p')
    {
      var s :| InUnit(s) && p == Lerp(A, B, s);
      var t :| InUnit(t) && p' == Lerp(C, D, t);
      SolvedIsMinimum(q, s, t);
      FormNonNegative(q, s1k - s, s2k - t);
      var s', t' := SlideToEdge(q, s, t, s1k, s2k);
      SegQuadIsDistance(A, B, C, D, s, t);
      SegQuadIsDistance(A, B, C, D, s', t');
      OnSegment(A, B, s');
      OnSegment(C, D, t');
      Dist2Symmetric(Lerp(A, B, s'), Lerp(C, D, t'));
    }
  }

  /** A pair that is no farther than any other pair of parameters settles the minimum. */
  lemma BestPairSettles(A: Point3D, B: Point3D, C: Point3D, D: Point3D, d2: real, s': real, t': real)
    requires var q := SegQuad(A, B, C, D);
             forall s, t :: InSquare(s, t) ==> q.At(s', t') <= q.At(s, t)
    requires d2 <= Dist2(Lerp(A, B, s'), Lerp(C, D, t'))
    ensures NoneCloser(d2, Seg(A, B), Seg(C, D))
  {
    hide Quad.At, Dist2, SegQuad;
    SegQuadIsDistance(A, B, C, D, s', t');
    forall p, p' | p in Seg(A, B) && p' in Seg(C, D)
      ensures d2 <= Dist2(p, p')
    {
      var s :| InUnit(s) && p == Lerp(A, B, s);
      var t :| InUnit(t) && p' == Lerp(C, D, t);
      SegQuadIsDistance(A, B, C, D, s, t);
      assert InSquare(s, t);
    }
  }

  /** Lines that count as parallel: the tested pair is the minimum exactly when it
      meets the first-order conditions. */
  lemma TestedIsMinimumIff(A: Point3D, B: Point3D, C: Point3D, D: Point3D)
    requires A != B && C != D && Det(SegQuad(A, B, C, D)) < 0.000000001
    requires SegQuad(A, B, C, D).a > 0.0 && SegQuad(A, B, C, D).c > 0.0
    ensures var q := SegQuad(A, B, C, D);
            var (s', t') := TestedParallel(q);
            Exact(A, B, C, D) <==> forall s, t :: InSquare(s, t) ==> q.At(s', t') <= q.At(s, t)
  {
    hide Quad.At, SegQuad, Stationary, TestedParallel;
    var q := SegQuad(A, B, C, D);
    var (s', t') := TestedParallel(q);
    DeterminantNonNegative(A, B, C, D);
    if Stationary(q, s', t') {
      forall s, t | InSquare(s, t)
        ensures q.At(s', t') <= q.At(s, t)
      {
        StationarySuffices(q, s', t', s, t);
      }
    } else {
      var s, t := StationaryNecessary(q, s', t');
    }
  }

  const MISS_A := Point3D(0.0, 0.0, 0.0)
  const MISS_B := Point3D(1.0, 0.0, 0.0)
  const MISS_C := Point3D(0.0, 0.00002, 0.0)
  const MISS_D := Point3D(1.0, 0.00001, 0.0)

  /** Segments that converge by one part in a hundred thousand count as parallel, and
      the pair the source then tests is not the closest one. */
  lemma NearParallelMiss()
    ensures MISS_A != MISS_B && MISS_C != MISS_D && !Exact(MISS_A, MISS_B, MISS_C, MISS_D)
  {
    hide SegQuad, Det, Stationary, TestedParallel;
    assert MISS_A.x != MISS_B.x && MISS_C.x != MISS_D.x;
    MissedIs();
    MissedQuad(SegQuad(MISS_A, MISS_B, MISS_C, MISS_D));
  }

  lemma MissedIs()
    ensures SegQuad(MISS_A, MISS_B, MISS_C, MISS_D) == Quad(1.0, 1.0, 1.0000000001, 0.0, 0.0000000002, 0.0000000004)
  {
    assert Minus(MISS_B, MISS_A) == Point3D(1.0, 0.0, 0.0);
    assert Minus(MISS_D, MISS_C) == Point3D(1.0, -0.00001, 0.0);
    assert Minus(MISS_A, MISS_C) == Point3D(0.0, -0.00002, 0.0);
  }

  lemma MissedQuad(q: Quad)
    requires q == Quad(1.0, 1.0, 1.0000000001, 0.0, 0.0000000002, 0.0000000004)
    ensures Det(q) < PARALLEL && !Stationary(q, TestedParallel(q).0, TestedParallel(q).1)
  {
    var t := q.e / q.c;
    assert Det(q) == 0.0000000001;
    assert 0.0 < t < 1.0;
    assert TestedParallel(q) == (0.0, t);
  }

  /** On an exact input the tests made by the source settle the minimum. */
  lemma ExactSettles(A: Point3D, B: Point3D, C: Point3D, D: Point3D, d2: real)
    requires A != B && C != D && Exact(A, B, C, D)
    requires SegQuad(A, B, C, D).a > 0.0 && SegQuad(A, B, C, D).c > 0.0
    requires var (s1k, s2k) := LineParams(SegQuad(A, B, C, D));
             if InSquare(s1k, s2k) then NoneCloser(d2, iset{Lerp(A, B, s1k)}, iset{Lerp(C, D, s2k)})
             else ViolatedEndsTested(d2, A, B, C, D, s1k, s2k)
    ensures NoneCloser(d2, Seg(A, B), Seg(C, D))
  {
    hide Quad.At, Dist2, SegQuad, Stationary;
    var q := SegQuad(A, B, C, D);
    var (s1k, s2k) := LineParams(q);
    if Det(q) < PARALLEL {
      var (s', t') := TestedParallel(q);
      TestedIsMinimumIff(A, B, C, D);
      OnSegment(A, B, s');
      EndsOnSegment(C, D);
      Dist2Symmetric(Lerp(A, B, s'), Lerp(C, D, t'));
      BestPairSettles(A, B, C, D, d2, s', t');
    } else if InSquare(s1k, s2k) {
      forall s, t | InSquare(s, t)
        ensures q.At(s1k, s2k) <= q.At(s, t)
      {
        SolvedIsMinimum(q, s, t);
      }
      BestPairSettles(A, B, C, D, d2, s1k, s2k);
    } else {
      ViolatedEndsSettle(A, B, C, D, d2);
    }
  }

  /** On any other input, what was recorded is beaten by some pair of points. */
  lemma InexactMisses(A: Point3D, B: Point3D, C: Point3D, D: Point3D, twisted: int, r: Record)
    requires A != B && C != D && !Exact(A, B, C, D)
    requires SegQuad(A, B, C, D).a > 0.0 && SegQuad(A, B, C, D).c > 0.0
    requires Dist2(r.p1, r.p2) == r.d2
    requires var (s1k, s2k) := LineParams(SegQuad(A, B, C, D));
             && (InSquare(s1k, s2k) ==> Oriented(twisted, r, iset{Lerp(A, B, s1k)}, iset{Lerp(C, D, s2k)}))
             && (InUnit(s1k) && s2k < 0.0 ==> Oriented(twisted, r, Seg(A, B), iset{C}))
             && (InUnit(s1k) && s2k > 1.0 ==> Oriented(twisted, r, Seg(A, B), iset{D}))
    ensures !NoneCloser(r.d2, Seg(A, B), Seg(C, D))
  {
    hide Quad.At, Dist2, Stationary;
    var q := SegQuad(A, B, C, D);
    var (s', t') := TestedParallel(q);
    TestedIsMinimumIff(A, B, C, D);
    var s, t :| InSquare(s, t) && q.At(s, t) < q.At(s', t');
    OnSegment(A, B, s);
    OnSegment(C, D, t);
    SegQuadIsDistance(A, B, C, D, s, t);
    SegQuadIsDistance(A, B, C, D, s', t');
    Dist2Symmetric(r.p1, r.p2);
    EndsOnSegment(C, D);
    var s2k := LineParams(q).1;
    if s2k < 0.0 || s2k > 1.0 {
      var p, x := if s2k < 0.0 then C else D, if twisted > 0 then r.p1 else r.p2;
      TestedEndIsNearest(A, B, C, D, x);
      Dist2Symmetric(Lerp(A, B, s'), p);
    }
    assert q.At(s', t') <= r.d2;
  }

  lemma NearestByRatio(p: Point3D, A: Point3D, B: Point3D, l: real, dot: real, x: Point3D)
    requires A != B && l > 0.0 && x in Seg(A, B)
    requires l == Dot(Minus(B, A), Minus(B, A)) && dot == Dot(Minus(p, A), Minus(B, A))
    ensures Dist2(p, Lerp(A, B, Nearest(dot / l))) <= Dist2(p, x)
  {
    hide Dist2, Dot, Minus, Lerp, Nearest;
    var length := Dot(Minus(B, A), Minus(B, A));
    DivideBack(dot, length);
    NearestOnSegment(p, A, B, dot / length, x);
  }

  /** In the parallel branch with an end of CD violated, the tested pair is the
      nearest point of AB to that end. */
  lemma TestedEndIsNearest(A: Point3D, B: Point3D, C: Point3D, D: Point3D, x: Point3D)
    requires A != B && SegQuad(A, B, C, D).a > 0.0 && SegQuad(A, B, C, D).c > 0.0 && x in Seg(A, B)
    ensures var q := SegQuad(A, B, C, D);
            var s' := TestedParallel(q).0;
            && (LineParams(q).1 < 0.0 ==> Dist2(C, Lerp(A, B, s')) <= Dist2(C, x))
            && (LineParams(q).1 > 1.0 ==> Dist2(D, Lerp(A, B, s')) <= Dist2(D, x))
  {
    hide Dist2, LineParams, Dot, Minus, Lerp;
    EndScalar(A, B, C, D);
    hide SegQuad;
    var q := SegQuad(A, B, C, D);
    NearestByRatio(C, A, B, q.a, -q.d, x);
    NearestByRatio(D, A, B, q.a, q.b - q.d, x);
  }

  lemma EndScalar(A: Point3D, B: Point3D, C: Point3D, D: Point3D)
    ensures var q := SegQuad(A, B, C, D);
            && q.a == Dot(Minus(B, A), Minus(B, A))
            && Dot(Minus(C, A), Minus(B, A)) == -q.d
            && Dot(Minus(D, A), Minus(B, A)) == q.b - q.d
  {
  }

  // ---- Whole polylines ----

  predicate AllClearlyPlaced(l1: seq<Point3D>, l2: seq<Point3D>) {
    forall i, j :: 1 <= i < |l1| && 1 <= j < |l2| ==> ClearlyPlaced(l1[i-1], l1[i], l2[j-1], l2[j])
  }

  lemma AllClearlyPlacedAreExact(l1: seq<Point3D>, l2: seq<Point3D>)
    requires AllClearlyPlaced(l1, l2)
    ensures AllExact(l1, l2)
  {
    hide Exact, ClearlyPlaced;
    forall i, j | 1 <= i < |l1| && 1 <= j < |l2|
      ensures Exact(l1[i-1], l1[i], l2[j-1], l2[j])
    {
      ClearlyPlacedIsExact(l1[i-1], l1[i], l2[j-1], l2[j]);
    }
  }

  predicate AllExact(l1: seq<Point3D>, l2: seq<Point3D>) {
    forall i, j :: 1 <= i < |l1| && 1 <= j < |l2| ==> Exact(l1[i-1], l1[i], l2[j-1], l2[j])
  }

  ghost predicate EdgesDone(d2: real, l1: seq<Point3D>, l2: seq<Point3D>, n: nat, m: nat) {
    forall i: nat, j: nat :: i + 1 < |l1| && j + 1 < |l2| && (i < n || (i == n && j < m))
      ==> NoneCloser(d2, Edge(l1, i), Edge(l2, j))
  }

  lemma EdgesDoneKeeps(d2: real, d2': real, l1: seq<Point3D>, l2: seq<Point3D>, n: nat, m: nat)
    requires EdgesDone(d2, l1, l2, n, m) && d2' <= d2
    ensures EdgesDone(d2', l1, l2, n, m)
  {
    forall i: nat, j: nat | i + 1 < |l1| && j + 1 < |l2| && (i < n || (i == n && j < m))
      ensures NoneCloser(d2', Edge(l1, i), Edge(l2, j))
    {
      assert NoneCloser(d2, Edge(l1, i), Edge(l2, j));
    }
  }

  lemma NoEdgesDone(d2: real, l1: seq<Point3D>, l2: seq<Point3D>)
    ensures EdgesDone(d2, l1, l2, 0, 0)
  {
  }

  lemma OneMoreDone(d2: real, d2': real, l1: seq<Point3D>, l2: seq<Point3D>, n: nat, m: nat)
    requires EdgesDone(d2, l1, l2, n, m) && d2' <= d2
    requires n + 1 < |l1| && m + 1 < |l2| && NoneCloser(d2', Edge(l1, n), Edge(l2, m))
    ensures EdgesDone(d2', l1, l2, n, m + 1)
  {
    hide NoneCloser;
    EdgesDoneKeeps(d2, d2', l1, l2, n, m);
  }

  lemma RowDone(d2: real, l1: seq<Point3D>, l2: seq<Point3D>, n: nat, m: nat)
    requires EdgesDone(d2, l1, l2, n, m) && m + 1 >= |l2|
    ensures EdgesDone(d2, l1, l2, n + 1, 0)
  {
    hide NoneCloser;
  }

  lemma EdgeOnPath(l: seq<Point3D>, i: nat)
    requires i + 1 < |l|
    ensures Edge(l, i) == Seg(l[i], l[i+1]) && Edge(l, i) <= Path(l)
  {
    hide Seg;
  }

  lemma ExactPair(l1: seq<Point3D>, l2: seq<Point3D>, t: nat, u: nat)
    requires AllExact(l1, l2) && 1 <= t < |l1| && 1 <= u < |l2|
    ensures Exact(l1[t-1], l1[t], l2[u-1], l2[u])
  {
    hide Exact;
  }

  lemma EdgesDonePaths(d2: real, l1: seq<Point3D>, l2: seq<Point3D>)
    requires |l1| > 0 && EdgesDone(d2, l1, l2, |l1| - 1, 0)
    ensures NoneCloser(d2, Path(l1), Path(l2))
  {
    hide Dist2;
    forall p, q | p in Path(l1) && q in Path(l2)
      ensures d2 <= Dist2(p, q)
    {
      var i: nat :| i + 1 < |l1| && p in Edge(l1, i);
      var j: nat :| j + 1 < |l2| && q in Edge(l2, j);
      assert NoneCloser(d2, Edge(l1, i), Edge(l2, j));
    }
  }

  /** The points of a polyline, a single vertex being one. */
  ghost function Drawn(l: seq<Point3D>): iset<Point3D> {
    iset p: Point3D | p in l || OnSomeEdge(p, l)
  }

  lemma VertexIsDrawn(l: seq<Point3D>, i: nat)
    requires i < |l|
    ensures iset{l[i]} <= Drawn(l)
  {
  }

  lemma DrawnBetween(p: Point3D, l: seq<Point3D>) returns (i: nat, j: nat)
    requires p in Drawn(l)
    ensures i < |l| && j < |l| && p in Seg(l[i], l[j])
  {
    if p in l {
      i :| i < |l| && l[i] == p;
      j := i;
      EndsOnSegment(p, p);
    } else {
      i :| i + 1 < |l| && p in Edge(l, i);
      j := i + 1;
    }
  }

  /** The greatest distance between two polylines is attained at vertices. */
  lemma VerticesSettleMaximum(d2: real, l1: seq<Point3D>, l2: seq<Point3D>)
    requires forall i, j :: 0 <= i < |l1| && 0 <= j < |l2| ==> Dist2(l1[i], l2[j]) <= d2
    ensures NoneFarther(d2, Drawn(l1), Drawn(l2))
  {
    hide Dist2, Seg, Drawn;
    forall p, q | p in Drawn(l1) && q in Drawn(l2)
      ensures Dist2(p, q) <= d2
    {
      var i, i' := DrawnBetween(p, l1);
      var j, j' := DrawnBetween(q, l2);
      FarthestIsEnd(l1[i], l2[j], l2[j'], d2, q);
      FarthestIsEnd(l1[i'], l2[j], l2[j'], d2, q);
      Dist2Symmetric(l1[i], q);
      Dist2Symmetric(l1[i'], q);
      FarthestIsEnd(q, l1[i], l1[i'], d2, p);
      Dist2Symmetric(p, q);
    }
  }

  // ---- The accumulator ----

  /** The DISTPTS3D accumulator. */
  class DistPts3d {
    const mode: int
    var distance2: real
    var p1: Point3D
    var p2: Point3D
    var twisted: int
    const tolerance: real

    ghost predicate Valid()
      reads this
    {
      (mode == DIST_MIN || mode == DIST_MAX) && (twisted == 1 || twisted == -1) && (mode == DIST_MIN ==> distance2 >= 0.0)
    }

    ghost function Rec(): Record
      reads this
    {
      Record(distance2, p1, p2)
    }

    /** "distance <= tolerance" in a minimum search, on squares. */
    predicate Within()
      reads this
    {
      mode == DIST_MIN && tolerance >= 0.0 && distance2 <= tolerance*tolerance
    }

    constructor (start2: real, mode: int, tolerance: real)
      requires mode == DIST_MIN || mode == DIST_MAX
      requires mode == DIST_MIN ==> start2 >= 0.0
      ensures Valid() && distance2 == start2 && this.mode == mode && twisted == 1 && this.tolerance == tolerance
    {
      this.distance2, this.mode, this.twisted, this.tolerance := start2, mode, 1, tolerance;
      this.p1, this.p2 := Point3D(0.0, 0.0, 0.0), Point3D(0.0, 0.0, 0.0);
    }

    method PtPt(thep1: Point3D, thep2: Point3D)
      requires Valid()
      modifies this
      ensures Valid() && twisted == old(twisted)
      ensures Rec() == if !Beats(mode, Dist2(thep1, thep2), old(distance2)) then old(Rec())
                       else if twisted > 0 then Record(Dist2(thep1, thep2), thep1, thep2)
                       else Record(Dist2(thep1, thep2), thep2, thep1)
      ensures Advanced(mode, twisted, old(Rec()), Rec(), iset{thep1}, iset{thep2})
      ensures NoneBeats(mode, distance2, iset{thep1}, iset{thep2})
    {
      var dist2 := Dist2(thep1, thep2);
      Dist2Symmetric(thep1, thep2);
      if (distance2 - dist2) * (mode as real) > 0.0 {
        distance2 := dist2;
        if twisted > 0 {
          p1, p2 := thep1, thep2;
        } else {
          p1, p2 := thep2, thep1;
        }
      }
    }

    method PtSeg(p: Point3D, A: Point3D, B: Point3D)
      requires Valid()
      modifies this
      ensures Valid() && twisted == old(twisted)
      ensures Advanced(mode, twisted, old(Rec()), Rec(), iset{p}, Seg(A, B))
      ensures NoneBeats(mode, distance2, iset{p}, Seg(A, B))
    {
      hide Dist2, Dot;
      EndsOnSegment(A, B);
      if A.x == B.x && A.y == B.y && A.z == B.z {
        PtPt(p, A);
        DegenerateSegment(A);
        return;
      }
      LengthPositive(A, B);
      var r := Dot(Minus(p, A), Minus(B, A)) / Dot(Minus(B, A), Minus(B, A));
      DivideBack(Dot(Minus(p, A), Minus(B, A)), Dot(Minus(B, A), Minus(B, A)));
      if mode == DIST_MAX {
        if r >= 0.5 {
          PtPt(p, A);
        } else {
          PtPt(p, B);
        }
        forall q | q in Seg(A, B)
          ensures Dist2(p, q) <= distance2
        {
          FarthestOnSegment(p, A, B, r, q);
        }
        return;
      }
      forall q | q in Seg(A, B)
        ensures Dist2(p, Lerp(A, B, Nearest(r))) <= Dist2(p, q)
      {
        NearestOnSegment(p, A, B, r, q);
      }
      if r < 0.0 {
        PtPt(p, A);
        return;
      }
      if r > 1.0 {
        PtPt(p, B);
        return;
      }
      var c := Lerp(A, B, r);
      OnSegment(A, B, r);
      PtPt(p, c);
    }

    /** Flip the order of the lines, then test a point of the second against the first. */
    method FlippedPtSeg(p: Point3D, A: Point3D, B: Point3D, ghost Y: iset<Point3D>)
      requires Valid() && mode == DIST_MIN && p in Y
      modifies this
      ensures Valid() && twisted == -old(twisted)
      ensures Advanced(mode, old(twisted), old(Rec()), Rec(), Seg(A, B), Y)
      ensures NoneCloser(distance2, iset{p}, Seg(A, B))
    {
      ghost var tw, r0 := twisted, Rec();
      twisted := twisted * -1;
      PtSeg(p, A, B);
      AdvancedFlip(mode, tw, r0, Rec(), Seg(A, B), iset{p});
    }

    /** The four conditional end tests. */
    method TestViolated(A: Point3D, B: Point3D, C: Point3D, D: Point3D, s1k: real, s2k: real)
      requires Valid() && mode == DIST_MIN
      modifies this
      ensures Valid() && (twisted == old(twisted) || twisted == -old(twisted))
      ensures Advanced(mode, old(twisted), old(Rec()), Rec(), Seg(A, B), Seg(C, D))
      ensures ViolatedEndsTested(distance2, A, B, C, D, s1k, s2k)
      ensures InUnit(s1k) && s2k < 0.0 ==> Advanced(mode, old(twisted), old(Rec()), Rec(), Seg(A, B), iset{C})
      ensures InUnit(s1k) && s2k > 1.0 ==> Advanced(mode, old(twisted), old(Rec()), Rec(), Seg(A, B), iset{D})
    {
      hide Dist2, Oriented;
      ghost var X, Y, tw, r0 := Seg(A, B), Seg(C, D), twisted, Rec();
      EndsOnSegment(A, B);
      EndsOnSegment(C, D);
      if s1k < 0.0 {
        PtSeg(A, C, D);
        AdvancedWider(mode, tw, r0, r0, Rec(), X, Y, iset{A}, Y);
      }
      if s1k > 1.0 {
        PtSeg(B, C, D);
        AdvancedWider(mode, tw, r0, r0, Rec(), X, Y, iset{B}, Y);
      }
      ghost var r1 := Rec();
      if s2k < 0.0 {
        FlippedPtSeg(C, A, B, iset{C});
        AdvancedWider(mode, tw, r0, r1, Rec(), X, Y, X, iset{C});
      }
      if s2k > 1.0 {
        FlippedPtSeg(D, A, B, iset{D});
        AdvancedWider(mode, tw, r0, r1, Rec(), X, Y, X, iset{D});
      }
    }

    method SegSeg(s1p1: Point3D, s1p2: Point3D, s2p1: Point3D, s2p2: Point3D)
      requires Valid() && mode == DIST_MIN
      modifies this
      ensures Valid() && (twisted == old(twisted) || twisted == -old(twisted))
      ensures Advanced(mode, old(twisted), old(Rec()), Rec(), Seg(s1p1, s1p2), Seg(s2p1, s2p2))
      ensures Exact(s1p1, s1p2, s2p1, s2p2) ==> NoneCloser(distance2, Seg(s1p1, s1p2), Seg(s2p1, s2p2))
      ensures Det(SegQuad(s1p1, s1p2, s2p1, s2p2)) == 0.0 || Det(SegQuad(s1p1, s1p2, s2p1, s2p2)) >= 0.000000001
              ==> NoneCloser(distance2, Seg(s1p1, s1p2), Seg(s2p1, s2p2))
      ensures distance2 < old(distance2)
              ==> (NoneCloser(distance2, Seg(s1p1, s1p2), Seg(s2p1, s2p2)) <==> Exact(s1p1, s1p2, s2p1, s2p2))
    {
      hide Dist2, Dot, Minus, SegQuad, Oriented, Stationary, LineParams, TestedParallel, Det;
      if ClearlyPlaced(s1p1, s1p2, s2p1, s2p2) {
        ClearlyPlacedIsExact(s1p1, s1p2, s2p1, s2p2);
      }
      if s1p1.x == s1p2.x && s1p1.y == s1p2.y && s1p1.z == s1p2.z {
        DegenerateSegment(s1p1);
        PtSeg(s1p1, s2p1, s2p2);
        return;
      }
      if s2p1.x == s2p2.x && s2p1.y == s2p2.y && s2p1.z == s2p2.z {
        DegenerateSegment(s2p1);
        FlippedPtSeg(s2p1, s1p1, s1p2, Seg(s2p1, s2p2));
        NoneCloserFlip(distance2, Seg(s1p1, s1p2), Seg(s2p1, s2p2));
        return;
      }
      ghost var tw, r0 := twisted, Rec();
      TestLines(s1p1, s1p2, s2p1, s2p2);
      if Exact(s1p1, s1p2, s2p1, s2p2) {
        ExactSettles(s1p1, s1p2, s2p1, s2p2, distance2);
      } else if distance2 < r0.d2 {
        InexactMisses(s1p1, s1p2, s2p1, s2p2, tw, Rec());
      }
    }

    /** Two proper segments: find where their lines come closest and test that pair,
        or the ends it was beyond. */
    method TestLines(A: Point3D, B: Point3D, C: Point3D, D: Point3D)
      requires Valid() && mode == DIST_MIN && A != B && C != D
      modifies this
      ensures Valid() && (twisted == old(twisted) || twisted == -old(twisted))
      ensures Advanced(mode, old(twisted), old(Rec()), Rec(), Seg(A, B), Seg(C, D))
      ensures SegQuad(A, B, C, D).a > 0.0 && SegQuad(A, B, C, D).c > 0.0
      ensures var (s1k, s2k) := LineParams(SegQuad(A, B, C, D));
              if InSquare(s1k, s2k) then
                && NoneCloser(distance2, iset{Lerp(A, B, s1k)}, iset{Lerp(C, D, s2k)})
                && Advanced(mode, old(twisted), old(Rec()), Rec(), iset{Lerp(A, B, s1k)}, iset{Lerp(C, D, s2k)})
              else
                && ViolatedEndsTested(distance2, A, B, C, D, s1k, s2k)
                && (InUnit(s1k) && s2k < 0.0 ==> Advanced(mode, old(twisted), old(Rec()), Rec(), Seg(A, B), iset{C}))
                && (InUnit(s1k) && s2k > 1.0 ==> Advanced(mode, old(twisted), old(Rec()), Rec(), Seg(A, B), iset{D}))
    {
      hide Dist2, Dot, Minus, SegQuad, Oriented, LineParams, ViolatedEndsTested;
      ghost var tw, r0 := twisted, Rec();
      var q := SegQuad(A, B, C, D);
      Positive(A, B, C, D);
      var (s1k, s2k) := LineParams(q);
      if s1k < 0.0 || s1k > 1.0 || s2k < 0.0 || s2k > 1.0 {
        TestViolated(A, B, C, D, s1k, s2k);
      } else {
        var p1 := Lerp(A, B, s1k);
        var p2 := Lerp(C, D, s2k);
        OnSegment(A, B, s1k);
        OnSegment(C, D, s2k);
        PtPt(p1, p2);
        AdvancedWider(mode, tw, r0, r0, Rec(), Seg(A, B), Seg(C, D), iset{p1}, iset{p2});
      }
    }

    /** In maximum mode all pairs of vertices are enough. */
    method EachPtPt(l1: seq<Point3D>, l2: seq<Point3D>)
      requires Valid() && mode == DIST_MAX
      modifies this
      ensures Valid()
      ensures Advanced(mode, old(twisted), old(Rec()), Rec(), Drawn(l1), Drawn(l2))
      ensures NoneFarther(distance2, Drawn(l1), Drawn(l2))
    {
      hide Drawn, Dist2, Oriented;
      var twist := twisted;
      ghost var r0 := Rec();
      var t := 0;
      while t < |l1|
        invariant 0 <= t <= |l1| && Valid() && twisted == twist
        invariant Advanced(mode, twist, r0, Rec(), Drawn(l1), Drawn(l2))
        invariant forall i, j :: 0 <= i < t && 0 <= j < |l2| ==> Dist2(l1[i], l2[j]) <= distance2
      {
        var u := 0;
        while u < |l2|
          invariant 0 <= u <= |l2| && Valid() && twisted == twist
          invariant Advanced(mode, twist, r0, Rec(), Drawn(l1), Drawn(l2))
          invariant forall i, j :: 0 <= i <= t && 0 <= j < |l2| && (i < t || j < u) ==> Dist2(l1[i], l2[j]) <= distance2
        {
          ghost var r1 := Rec();
          PtPt(l1[t], l2[u]);
          assert l1[t] in iset{l1[t]} && l2[u] in iset{l2[u]};
          VertexIsDrawn(l1, t);
          VertexIsDrawn(l2, u);
          AdvancedWider(mode, twist, r0, r1, Rec(), Drawn(l1), Drawn(l2), iset{l1[t]}, iset{l2[u]});
          u := u + 1;
        }
        t := t + 1;
      }
      VerticesSettleMaximum(distance2, l1, l2);
    }

    /** Every segment of l1 against every segment of l2; for a maximum, every vertex
        against every vertex. */
    method PtArrayPtArray(l1: seq<Point3D>, l2: seq<Point3D>)
      requires Valid() && |l1| > 0 && |l2| > 0
      modifies this
      ensures Valid()
      ensures mode == DIST_MIN ==> Advanced(mode, old(twisted), old(Rec()), Rec(), Path(l1), Path(l2))
      ensures mode == DIST_MIN && AllExact(l1, l2) && !(tolerance >= 0.0 && distance2 <= tolerance*tolerance)
              ==> NoneCloser(distance2, Path(l1), Path(l2))
      ensures mode == DIST_MIN && AllClearlyPlaced(l1, l2) && !(tolerance >= 0.0 && distance2 <= tolerance*tolerance)
              ==> NoneCloser(distance2, Path(l1), Path(l2))
      ensures mode == DIST_MAX ==> Advanced(mode, old(twisted), old(Rec()), Rec(), Drawn(l1), Drawn(l2))
      ensures mode == DIST_MAX ==> NoneFarther(distance2, Drawn(l1), Drawn(l2))
      ensures Within() || !Beats(mode, old(distance2), distance2)
    {
      hide Dist2, Exact, AllExact, AllClearlyPlaced, Drawn, NoneFarther, NoneCloser, Path, Edge, EdgesDone, SegQuad, Det;
      if AllClearlyPlaced(l1, l2) {
        AllClearlyPlacedAreExact(l1, l2);
      }
      if mode == DIST_MAX {
        EachPtPt(l1, l2);
        return;
      }
      var twist := twisted;
      ghost var r0 := Rec();
      var start := l1[0];
      var t := 1;
      NoEdgesDone(distance2, l1, l2);
      while t < |l1|
        invariant 1 <= t <= |l1| && start == l1[t-1] && Valid()
        invariant Advanced(mode, twist, r0, Rec(), Path(l1), Path(l2))
        invariant AllExact(l1, l2) ==> EdgesDone(distance2, l1, l2, t - 1, 0)
      {
        var end := l1[t];
        var start2 := l2[0];
        var u := 1;
        while u < |l2|
          invariant 1 <= u <= |l2| && start2 == l2[u-1] && Valid()
          invariant Advanced(mode, twist, r0, Rec(), Path(l1), Path(l2))
          invariant AllExact(l1, l2) ==> EdgesDone(distance2, l1, l2, t - 1, u - 1)
        {
          var end2 := l2[u];
          twisted := twist;
          ghost var r1 := Rec();
          SegSeg(start, end, start2, end2);
          EdgeOnPath(l1, t - 1);
          EdgeOnPath(l2, u - 1);
          AdvancedWider(mode, twist, r0, r1, Rec(), Path(l1), Path(l2), Edge(l1, t - 1), Edge(l2, u - 1));
          if AllExact(l1, l2) {
            ExactPair(l1, l2, t, u);
            OneMoreDone(r1.d2, distance2, l1, l2, t - 1, u - 1);
          }
          if Within() {
            return;
          }
          start2 := end2;
          u := u + 1;
        }
        if AllExact(l1, l2) {
          RowDone(distance2, l1, l2, t - 1, u - 1);
        }
        start := end;
        t := t + 1;
      }
      if AllExact(l1, l2) {
        EdgesDonePaths(distance2, l1, l2);
      }
    }
  }
}
