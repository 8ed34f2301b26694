/** Closest point of approach of two trajectories: rtgeom_tcpa and rtgeom_cpa_within
    in src/rtlinearreferencing.c. */
module Approach {
  import opened Convex
  import opened PointArrays
  import opened Sorting

  /** Squared distance in space. */
  function Dist2(p: Point4D, q: Point4D): real {
    Dot(Apart(p, q), Apart(p, q))
  }

  datatype Vector = Vector(x: real, y: real, z: real)

  function Dot(u: Vector, v: Vector): real { u.x*v.x + u.y*v.y + u.z*v.z }

  function Apart(p: Point4D, q: Point4D): Vector {
    Vector(p.x - q.x, p.y - q.y, p.z - q.z)
  }

  // ---- Where a trajectory is at a given time ----

  /** Measures increase strictly along the line: rtline_is_trajectory. */
  ghost predicate Trajectory(line: seq<Point4D>) {
    |line| >= 2 && forall i, j :: 0 <= i < j < |line| ==> line[i].m < line[j].m
  }

  ghost predicate Alive(line: seq<Point4D>, T: real) {
    |line| >= 2 && line[0].m <= T <= line[|line| - 1].m
  }

  /** The fraction of a segment's travel time at T. */
  function Fraction(p1: Point4D, p2: Point4D, T: real): real
    requires p1.m != p2.m
  {
    (T - p1.m) / (p2.m - p1.m)
  }

  /** The place on a segment at time T. */
  function SegmentAt(p1: Point4D, p2: Point4D, T: real): Point4D
    requires p1.m != p2.m
  {
    Lerp(p1, p2, Fraction(p1, p2, T)).(m := T)
  }

  /** The first segment, from i on, whose end is not before T. */
  ghost function SegmentOf(line: seq<Point4D>, T: real, i: nat): (n: nat)
    requires i + 1 < |line| && T <= line[|line| - 1].m
    ensures i <= n && n + 1 < |line| && T <= line[n+1].m
    ensures n > i ==> line[n].m < T
    decreases |line| - i
  {
    if T <= line[i+1].m then i else SegmentOf(line, T, i + 1)
  }

  /** The place of a trajectory at time T. */
  ghost function Pos(line: seq<Point4D>, T: real): Point4D
    requires Trajectory(line) && Alive(line, T)
  {
    var n := SegmentOf(line, T, 0);
    SegmentAt(line[n], line[n+1], T)
  }

  lemma FractionTimes(p1: Point4D, p2: Point4D, T: real)
    requires p1.m != p2.m
    ensures Fraction(p1, p2, T)*(p2.m - p1.m) == T - p1.m
  {
  }

  lemma SegmentAtEnds(p1: Point4D, p2: Point4D)
    requires p1.m != p2.m
    ensures SegmentAt(p1, p2, p1.m) == p1 && SegmentAt(p1, p2, p2.m) == p2
  {
    assert p2.m - p1.m != 0.0;
    assert Fraction(p1, p2, p1.m) == 0.0;
    assert Fraction(p1, p2, p2.m) == (p2.m - p1.m)/(p2.m - p1.m) == 1.0;
    EndsOnSegment(p1, p2);
  }

  /** Every segment alive at T gives the same place. */
  lemma PosOnSegment(line: seq<Point4D>, T: real, i: nat)
    requires Trajectory(line) && i + 1 < |line| && line[i].m <= T <= line[i+1].m
    ensures Alive(line, T) && Pos(line, T) == SegmentAt(line[i], line[i+1], T)
  {
    hide Lerp, Fraction;
    assert line[0].m <= line[i].m && line[i+1].m <= line[|line| - 1].m;
    var n := SegmentOf(line, T, 0);
    if n < i {
      assert line[n+1].m <= line[i].m;
      SegmentAtEnds(line[n], line[n+1]);
      SegmentAtEnds(line[i], line[i+1]);
    }
  }

  // ---- Between two consecutive times no vertex is passed ----

  ghost predicate NoVertexBetween(line: seq<Point4D>, t0: real, t1: real) {
    forall i :: 0 <= i < |line| ==> !(t0 < line[i].m < t1)
  }

  lemma CommonSegment(line: seq<Point4D>, t0: real, t1: real) returns (i: nat)
    requires Trajectory(line) && Alive(line, t0) && Alive(line, t1) && t0 < t1 && NoVertexBetween(line, t0, t1)
    ensures i + 1 < |line| && line[i].m <= t0 && t1 <= line[i+1].m
  {
    i := SegmentOf(line, t1, 0);
  }

  /** The time at fraction t of an interval. */
  function TimeAt(t0: real, t1: real, t: real): real { t0 + (t1 - t0)*t }

  lemma FractionAffine(p1: Point4D, p2: Point4D, t0: real, t1: real, t: real)
    requires p1.m != p2.m
    ensures Fraction(p1, p2, TimeAt(t0, t1, t))
            == Fraction(p1, p2, t0) + t*(Fraction(p1, p2, t1) - Fraction(p1, p2, t0))
  {
    var g := p2.m - p1.m;
    var f0, f1, f := Fraction(p1, p2, t0), Fraction(p1, p2, t1), Fraction(p1, p2, TimeAt(t0, t1, t));
    FractionTimes(p1, p2, t0);
    FractionTimes(p1, p2, t1);
    FractionTimes(p1, p2, TimeAt(t0, t1, t));
    AffineScalar(g, f0, f1, f, t, t0 - p1.m, t1 - p1.m);
  }

  lemma AffineScalar(g: real, f0: real, f1: real, f: real, t: real, x0: real, x1: real)
    requires g != 0.0 && f0*g == x0 && f1*g == x1 && f*g == x0 + (x1 - x0)*t
    ensures f == f0 + t*(f1 - f0)
  {
    assert (f - (f0 + t*(f1 - f0)))*g == f*g - (f0*g + t*(f1*g - f0*g));
    NonZeroFactor(g, f - (f0 + t*(f1 - f0)));
  }

  /** Between vertices a trajectory moves uniformly. */
  lemma PosUniform(line: seq<Point4D>, t0: real, t1: real, t: real)
    requires Trajectory(line) && Alive(line, t0) && Alive(line, t1) && t0 < t1 && NoVertexBetween(line, t0, t1)
    requires 0.0 <= t <= 1.0
    ensures Alive(line, TimeAt(t0, t1, t))
    ensures var (p, a, b) := (Pos(line, TimeAt(t0, t1, t)), Pos(line, t0), Pos(line, t1));
            p.x == Mix(a.x, b.x, t) && p.y == Mix(a.y, b.y, t) && p.z == Mix(a.z, b.z, t)
  {
    hide Mix, Fraction, TimeAt, Pos;
    var i := CommonSegment(line, t0, t1);
    assert line[i].m < line[i+1].m;
    TimeInside(t0, t1, t);
    PosOnSegment(line, t0, i);
    PosOnSegment(line, t1, i);
    PosOnSegment(line, TimeAt(t0, t1, t), i);
    SegmentUniform(line[i], line[i+1], t0, t1, t);
  }

  lemma SegmentUniform(p1: Point4D, p2: Point4D, t0: real, t1: real, t: real)
    requires p1.m != p2.m
    ensures var (p, a, b) := (SegmentAt(p1, p2, TimeAt(t0, t1, t)), SegmentAt(p1, p2, t0), SegmentAt(p1, p2, t1));
            p.x == Mix(a.x, b.x, t) && p.y == Mix(a.y, b.y, t) && p.z == Mix(a.z, b.z, t)
  {
    hide Mix, Fraction, TimeAt;
    FractionAffine(p1, p2, t0, t1, t);
    var u, v, w := Fraction(p1, p2, t0), Fraction(p1, p2, t1), Fraction(p1, p2, TimeAt(t0, t1, t));
    NestedAxis(p1.x, p2.x, u, v, t, w);
    NestedAxis(p1.y, p2.y, u, v, t, w);
    NestedAxis(p1.z, p2.z, u, v, t, w);
  }

  lemma NestedAxis(a: real, b: real, u: real, v: real, t: real, w: real)
    requires w == u + t*(v - u)
    ensures Mix(a, b, w) == Mix(Mix(a, b, u), Mix(a, b, v), t)
  {
    MixNested(a, b, u, v, t);
  }

  lemma TimeInside(t0: real, t1: real, t: real)
    requires t0 <= t1 && 0.0 <= t <= 1.0
    ensures t0 <= TimeAt(t0, t1, t) <= t1
  {
    ProductNonNegative(t1 - t0, t);
    ProductNonNegative(t1 - t0, 1.0 - t);
  }

  lemma TimeFraction(t0: real, t1: real, T: real) returns (t: real)
    requires t0 < t1 && t0 <= T <= t1
    ensures 0.0 <= t <= 1.0 && T == TimeAt(t0, t1, t)
  {
    t := UnitQuotient(T - t0, t1 - t0);
  }

  // ---- The distance between two trajectories over time ----

  /** Squared distance between points moving uniformly from p0 to p1 and q0 to q1. */
  function MovingDist2(p0: Point4D, p1: Point4D, q0: Point4D, q1: Point4D, s: real): real {
    Dist2(Lerp(p0, p1, s), Lerp(q0, q1, s))
  }

  /** How fast two uniformly moving points drift apart. */
  function Drift(p0: Point4D, p1: Point4D, q0: Point4D, q1: Point4D): Vector {
    Vector((p1.x - p0.x) - (q1.x - q0.x), (p1.y - p0.y) - (q1.y - q0.y), (p1.z - p0.z) - (q1.z - q0.z))
  }

  function Along(w: Vector, v: Vector, s: real): Vector {
    Vector(w.x + s*v.x, w.y + s*v.y, w.z + s*v.z)
  }

  /** A parabola in time by its three coefficients. */
  function Away(ww: real, wv: real, vv: real, s: real): real { ww + 2.0*s*wv + s*s*vv }

  lemma DotAlong(w: Vector, v: Vector, s: real)
    ensures Dot(Along(w, v, s), Along(w, v, s)) == Away(Dot(w, w), Dot(w, v), Dot(v, v), s)
  {
    hide Away, Along, Dot;
    var a := Along(w, v, s);
    AlongAxes(w, v, s);
    var xx, xww, xwv, xvv := SquareAlong(a.x, w.x, v.x, s);
    var yy, yww, ywv, yvv := SquareAlong(a.y, w.y, v.y, s);
    var zz, zww, zwv, zvv := SquareAlong(a.z, w.z, v.z, s);
    DotIs(a, a, xx, yy, zz);
    DotIs(w, w, xww, yww, zww);
    DotIs(w, v, xwv, ywv, zwv);
    DotIs(v, v, xvv, yvv, zvv);
    AwayAdds(xww, xwv, xvv, yww, ywv, yvv, zww, zwv, zvv, Dot(w, w), Dot(w, v), Dot(v, v), s);
  }

  lemma DotIs(u: Vector, v: Vector, xx: real, yy: real, zz: real)
    requires xx == u.x*v.x && yy == u.y*v.y && zz == u.z*v.z
    ensures Dot(u, v) == xx + yy + zz
  {
  }

  lemma AlongAxes(w: Vector, v: Vector, s: real)
    ensures var a := Along(w, v, s); a.x == w.x + s*v.x && a.y == w.y + s*v.y && a.z == w.z + s*v.z
  {
  }

  lemma SquareAlong(a: real, w: real, v: real, s: real) returns (aa: real, ww: real, wv: real, vv: real)
    requires a == w + s*v
    ensures aa == a*a && ww == w*w && wv == w*v && vv == v*v && aa == Away(ww, wv, vv, s)
  {
    aa, ww, wv, vv := a*a, w*w, w*v, v*v;
  }

  lemma AwayAdds(a: real, b: real, c: real, a': real, b': real, c': real, a'': real, b'': real, c'': real,
                 ww: real, wv: real, vv: real, s: real)
    requires ww == a + a' + a'' && wv == b + b' + b'' && vv == c + c' + c''
    ensures Away(ww, wv, vv, s) == Away(a, b, c, s) + Away(a', b', c', s) + Away(a'', b'', c'', s)
  {
  }

  lemma RelativeAxis(p0: real, p1: real, q0: real, q1: real, w: real, v: real, s: real)
    requires w == p0 - q0 && v == (p1 - p0) - (q1 - q0)
    ensures Mix(p0, p1, s) - Mix(q0, q1, s) == w + s*v
  {
  }

  /** In relative motion the squared distance is a parabola in time. */
  lemma RelativeMotion(p0: Point4D, p1: Point4D, q0: Point4D, q1: Point4D, s: real)
    ensures var (w, v) := (Apart(p0, q0), Drift(p0, p1, q0, q1));
            MovingDist2(p0, p1, q0, q1, s) == Away(Dot(w, w), Dot(w, v), Dot(v, v), s)
  {
    hide Mix, Dot, Away;
    var w, v := Apart(p0, q0), Drift(p0, p1, q0, q1);
    DotAlong(w, v, s);
    RelativeAxis(p0.x, p1.x, q0.x, q1.x, w.x, v.x, s);
    RelativeAxis(p0.y, p1.y, q0.y, q1.y, w.y, v.y, s);
    RelativeAxis(p0.z, p1.z, q0.z, q1.z, w.z, v.z, s);
    assert Apart(Lerp(p0, p1, s), Lerp(q0, q1, s)) == Along(w, v, s);
  }

  /** s is the earliest time, as a fraction, of the least distance. */
  ghost predicate EarliestFraction(p0: Point4D, p1: Point4D, q0: Point4D, q1: Point4D, s: real) {
    && 0.0 <= s <= 1.0
    && (forall u :: 0.0 <= u <= 1.0 ==> MovingDist2(p0, p1, q0, q1, s) <= MovingDist2(p0, p1, q0, q1, u))
    && (forall u :: 0.0 <= u < s ==> MovingDist2(p0, p1, q0, q1, s) < MovingDist2(p0, p1, q0, q1, u))
  }

  lemma ParabolaBelow(W: real, K: real, V: real, r: real, u: real)
    requires V > 0.0 && r*V == -K && 0.0 <= u <= 1.0
    ensures Away(W, K, V, Nearest(r)) <= Away(W, K, V, u)
    ensures u < Nearest(r) ==> Away(W, K, V, Nearest(r)) < Away(W, K, V, u)
  {
    var s := Nearest(r);
    NearestIsLowest(r, u);
    ScaledParabola(V, -K, r, u);
    ScaledParabola(V, -K, r, s);
    ScaledLess(V, Parabola(r, s), Parabola(r, u));
    if u < s {
      var z := ProductPositive(s - u, 2.0*r - s - u);
      assert Parabola(r, u) - Parabola(r, s) == (s - u)*(2.0*r - s - u);
      var z' := ProductPositive(Parabola(r, u) - Parabola(r, s), V);
    }
  }

  lemma NoMotion(p0: Point4D, p1: Point4D, q0: Point4D, q1: Point4D, u: real)
    requires Dot(Drift(p0, p1, q0, q1), Drift(p0, p1, q0, q1)) == 0.0
    ensures MovingDist2(p0, p1, q0, q1, u) == Dot(Apart(p0, q0), Apart(p0, q0))
  {
    hide MovingDist2, Dot, Apart, Drift, Away;
    var w, v := Apart(p0, q0), Drift(p0, p1, q0, q1);
    RelativeMotion(p0, p1, q0, q1, u);
    Standstill(w, v);
    FlatParabola(Dot(w, w), Dot(w, v), Dot(v, v), u);
  }

  lemma FlatParabola(ww: real, wv: real, vv: real, u: real)
    requires wv == 0.0 && vv == 0.0
    ensures Away(ww, wv, vv, u) == ww
  {
  }

  /** Without relative motion the distance stays, so the start is the earliest time. */
  lemma StillIsEarliest(p0: Point4D, p1: Point4D, q0: Point4D, q1: Point4D)
    requires Dot(Drift(p0, p1, q0, q1), Drift(p0, p1, q0, q1)) == 0.0
    ensures EarliestFraction(p0, p1, q0, q1, 0.0)
    ensures Dist2(p0, q0) == MovingDist2(p0, p1, q0, q1, 0.0)
  {
    EndsOnSegment(p0, p1);
    EndsOnSegment(q0, q1);
    assert Dist2(p0, q0) == MovingDist2(p0, p1, q0, q1, 0.0);
    hide MovingDist2, Dot;
    forall u
      ensures MovingDist2(p0, p1, q0, q1, u) == Dot(Apart(p0, q0), Apart(p0, q0))
    {
      NoMotion(p0, p1, q0, q1, u);
    }
  }

  /** The clamped vertex of the parabola is the earliest time of the least distance. */
  lemma ClampedIsEarliest(p0: Point4D, p1: Point4D, q0: Point4D, q1: Point4D, r: real)
    requires Dot(Drift(p0, p1, q0, q1), Drift(p0, p1, q0, q1)) != 0.0
    requires r*Dot(Drift(p0, p1, q0, q1), Drift(p0, p1, q0, q1)) == -Dot(Apart(p0, q0), Drift(p0, p1, q0, q1))
    ensures EarliestFraction(p0, p1, q0, q1, Nearest(r))
  {
    var w, v, s := Apart(p0, q0), Drift(p0, p1, q0, q1), Nearest(r);
    SquareLength(v);
    hide MovingDist2, Dot, Away, Apart, Drift, Nearest;
    RelativeMotion(p0, p1, q0, q1, s);
    forall u | 0.0 <= u <= 1.0
      ensures MovingDist2(p0, p1, q0, q1, s) <= MovingDist2(p0, p1, q0, q1, u)
      ensures u < s ==> MovingDist2(p0, p1, q0, q1, s) < MovingDist2(p0, p1, q0, q1, u)
    {
      RelativeMotion(p0, p1, q0, q1, u);
      ParabolaBelow(Dot(w, w), Dot(w, v), Dot(v, v), r, u);
    }
  }

  /** segments_tcpa: the time of closest approach on one interval, with both points
      moved to where they are then. */
  method SegmentsTcpa(p0: Point4D, p1: Point4D, q0: Point4D, q1: Point4D, t0: real, t1: real)
    returns (t: real, p: Point4D, q: Point4D)
    ensures exists s :: && EarliestFraction(p0, p1, q0, q1, s) && t == TimeAt(t0, t1, s)
                        && p == Lerp(p0, p1, s).(m := p0.m) && q == Lerp(q0, q1, s).(m := q0.m)
                        && Dist2(p, q) == MovingDist2(p0, p1, q0, q1, s)
  {
    hide Dist2, Dot, MovingDist2, EarliestFraction, Lerp, Nearest;
    p, q := p0, q0;
    var pv := Vector(p1.x - p0.x, p1.y - p0.y, p1.z - p0.z);
    var qv := Vector(q1.x - q0.x, q1.y - q0.y, q1.z - q0.z);
    var dv := Vector(pv.x - qv.x, pv.y - qv.y, pv.z - qv.z);
    var w0 := Vector(p0.x - q0.x, p0.y - q0.y, p0.z - q0.z);
    assert dv == Drift(p0, p1, q0, q1) && w0 == Apart(p0, q0) && pv == Apart(p1, p0) && qv == Apart(q1, q0);
    hide Drift, Apart;
    var dv2 := Dot(dv, dv);
    if dv2 == 0.0 {
      StillIsEarliest(p0, p1, q0, q1);
      EndsOnSegment(p0, p1);
      EndsOnSegment(q0, q1);
      assert TimeAt(t0, t1, 0.0) == t0 by {
        TimeIs(t0, t1, 0.0);
      }
      return t0, p, q;
    }
    var f := -Dot(w0, dv) / dv2;
    DivideBack(-Dot(w0, dv), dv2);
    ClampedIsEarliest(p0, p1, q0, q1, f);
    NearestIs(f);
    if f > 1.0 {
      f := 1.0;
    } else if f < 0.0 {
      f := 0.0;
    }
    p := MovedBy(p0, pv, f);
    q := MovedBy(q0, qv, f);
    MovedPoints(p0, p1, q0, q1, pv, qv, f);
    t := t0 + (t1 - t0)*f;
    TimeIs(t0, t1, f);
  }

  lemma TimeIs(t0: real, t1: real, f: real)
    ensures TimeAt(t0, t1, f) == t0 + (t1 - t0)*f
  {
  }

  lemma NearestIs(f: real)
    ensures Nearest(f) == if f > 1.0 then 1.0 else if f < 0.0 then 0.0 else f
  {
  }

  function MovedBy(p: Point4D, v: Vector, f: real): Point4D {
    Point4D(p.x + v.x*f, p.y + v.y*f, p.z + v.z*f, p.m)
  }

  lemma MovedPoints(p0: Point4D, p1: Point4D, q0: Point4D, q1: Point4D, pv: Vector, qv: Vector, f: real)
    requires pv == Apart(p1, p0) && qv == Apart(q1, q0)
    ensures Dist2(MovedBy(p0, pv, f), MovedBy(q0, qv, f)) == MovingDist2(p0, p1, q0, q1, f)
    ensures MovedBy(p0, pv, f) == Lerp(p0, p1, f).(m := p0.m) && MovedBy(q0, qv, f) == Lerp(q0, q1, f).(m := q0.m)
  {
    hide Dist2;
    MovedAxis(p0.x, p1.x, pv.x, f);
    MovedAxis(p0.y, p1.y, pv.y, f);
    MovedAxis(p0.z, p1.z, pv.z, f);
    MovedAxis(q0.x, q1.x, qv.x, f);
    MovedAxis(q0.y, q1.y, qv.y, f);
    MovedAxis(q0.z, q1.z, qv.z, f);
    SameGap(MovedBy(p0, pv, f), MovedBy(q0, qv, f), Lerp(p0, p1, f), Lerp(q0, q1, f));
  }

  lemma MovedAxis(a: real, b: real, v: real, f: real)
    requires v == b - a
    ensures a + v*f == Mix(a, b, f)
  {
  }

  lemma SameGap(p: Point4D, q: Point4D, p': Point4D, q': Point4D)
    requires p.x == p'.x && p.y == p'.y && p.z == p'.z && q.x == q'.x && q.y == q'.y && q.z == q'.z
    ensures Dist2(p, q) == Dist2(p', q')
  {
  }

  lemma SquareLength(v: Vector)
    ensures Dot(v, v) >= 0.0
    ensures Dot(v, v) == 0.0 ==> v == Vector(0.0, 0.0, 0.0)
  {
    var a := SquareNonNegative(v.x);
    var b := SquareNonNegative(v.y);
    var c := SquareNonNegative(v.z);
    if v.x != 0.0 {
      a := SquarePositive(v.x);
    }
    if v.y != 0.0 {
      b := SquarePositive(v.y);
    }
    if v.z != 0.0 {
      c := SquarePositive(v.z);
    }
  }

  lemma Standstill(w: Vector, v: Vector)
    requires Dot(v, v) == 0.0
    ensures Dot(w, v) == 0.0
  {
    hide Dot;
    SquareLength(v);
    ZeroVector(w, v);
  }

  lemma ZeroVector(w: Vector, v: Vector)
    requires v == Vector(0.0, 0.0, 0.0)
    ensures Dot(w, v) == 0.0
  {
  }

  /** Squared distance of the two trajectories at time T. */
  ghost function Gap2(l1: seq<Point4D>, l2: seq<Point4D>, T: real): real
    requires Trajectory(l1) && Trajectory(l2) && Alive(l1, T) && Alive(l2, T)
  {
    Dist2(Pos(l1, T), Pos(l2, T))
  }

  /** In coordinates: each line is where it is in proportion on its segment, and the distance
      is the Euclidean one. */
  lemma GapInCoordinates(l1: seq<Point4D>, l2: seq<Point4D>, T: real, i: nat, j: nat)
    requires Trajectory(l1) && i + 1 < |l1| && l1[i].m <= T <= l1[i+1].m
    requires Trajectory(l2) && j + 1 < |l2| && l2[j].m <= T <= l2[j+1].m
    ensures Alive(l1, T) && Alive(l2, T)
    ensures var s, t := (T - l1[i].m) / (l1[i+1].m - l1[i].m), (T - l2[j].m) / (l2[j+1].m - l2[j].m);
            var dx := Mix(l1[i].x, l1[i+1].x, s) - Mix(l2[j].x, l2[j+1].x, t);
            var dy := Mix(l1[i].y, l1[i+1].y, s) - Mix(l2[j].y, l2[j+1].y, t);
            var dz := Mix(l1[i].z, l1[i+1].z, s) - Mix(l2[j].z, l2[j+1].z, t);
            Gap2(l1, l2, T) == dx*dx + dy*dy + dz*dz
  {
    hide Mix, Dist2, Fraction, Pos;
    PosOnSegment(l1, T, i);
    PosOnSegment(l2, T, j);
    assert l1[i].m < l1[i+1].m && l2[j].m < l2[j+1].m;
    FractionIs(l1[i], l1[i+1], T);
    FractionIs(l2[j], l2[j+1], T);
    var p, q := Pos(l1, T), Pos(l2, T);
    SumOfSquares(p, q, p.x - q.x, p.y - q.y, p.z - q.z);
  }

  lemma SumOfSquares(p: Point4D, q: Point4D, dx: real, dy: real, dz: real)
    requires dx == p.x - q.x && dy == p.y - q.y && dz == p.z - q.z
    ensures Dist2(p, q) == dx*dx + dy*dy + dz*dz
  {
  }

  lemma GapMoves(l1: seq<Point4D>, l2: seq<Point4D>, t0: real, t1: real, s: real)
    requires Trajectory(l1) && Alive(l1, t0) && Alive(l1, t1) && NoVertexBetween(l1, t0, t1)
    requires Trajectory(l2) && Alive(l2, t0) && Alive(l2, t1) && NoVertexBetween(l2, t0, t1)
    requires t0 < t1 && 0.0 <= s <= 1.0
    ensures Alive(l1, TimeAt(t0, t1, s)) && Alive(l2, TimeAt(t0, t1, s))
    ensures Gap2(l1, l2, TimeAt(t0, t1, s))
            == MovingDist2(Pos(l1, t0), Pos(l1, t1), Pos(l2, t0), Pos(l2, t1), s)
  {
    hide Mix, Pos, TimeAt, Dist2;
    PosUniform(l1, t0, t1, s);
    PosUniform(l2, t0, t1, s);
    SameGap(Pos(l1, TimeAt(t0, t1, s)), Pos(l2, TimeAt(t0, t1, s)),
            Lerp(Pos(l1, t0), Pos(l1, t1), s), Lerp(Pos(l2, t0), Pos(l2, t1), s));
  }

  // ---- Segments, measures and the list of times ----

  datatype Located = Place(p: Point4D) | OutOfRange | ZeroLength

  /** segment_locate_along with offset 0. */
  function SegmentLocateAlong(p1: Point4D, p2: Point4D, m: real): Located {
    var lo, hi := if p1.m < p2.m then p1.m else p2.m, if p1.m > p2.m then p1.m else p2.m;
    if m < lo || m > hi then OutOfRange
    else if p1.m == p2.m then
      if P4dSame(p1, p2) then Place(p1) else ZeroLength
    else
      var mprop := (m - p1.m) / (p2.m - p1.m);
      Place(Point4D(p1.x + (p2.x - p1.x)*mprop, p1.y + (p2.y - p1.y)*mprop, p1.z + (p2.z - p1.z)*mprop, m))
  }

  /** A point is located exactly for measures between those of the two ends, in either
      order; on a level segment only if its ends count as one point. */
  lemma LocatedIsPosition(p1: Point4D, p2: Point4D, m: real)
    ensures SegmentLocateAlong(p1, p2, m).OutOfRange? <==> !(p1.m <= m <= p2.m || p2.m <= m <= p1.m)
    ensures p1.m != p2.m && (p1.m <= m <= p2.m || p2.m <= m <= p1.m)
            ==> SegmentLocateAlong(p1, p2, m) == Place(SegmentAt(p1, p2, m))
    ensures p1.m == p2.m == m ==> SegmentLocateAlong(p1, p2, m) == if P4dSame(p1, p2) then Place(p1) else ZeroLength
  {
    hide Fraction, Mix;
    if p1.m != p2.m {
      FractionIs(p1, p2, m);
      var f := Fraction(p1, p2, m);
      MovedAxis(p1.x, p2.x, p2.x - p1.x, f);
      MovedAxis(p1.y, p2.y, p2.y - p1.y, f);
      MovedAxis(p1.z, p2.z, p2.z - p1.z, f);
    }
  }

  lemma FractionIs(p1: Point4D, p2: Point4D, m: real)
    requires p1.m != p2.m
    ensures Fraction(p1, p2, m) == (m - p1.m) / (p2.m - p1.m)
  {
  }

  /** What looking for a measure along a line can end in; `Stuck` is the source's error
      on a segment without measure length. */
  datatype Found = At(seg: nat, p: Point4D) | Nowhere | Stuck

  /** Segment i does not hold the measure. */
  predicate Misses(line: seq<Point4D>, m: real, i: nat)
    requires i + 1 < |line|
  {
    SegmentLocateAlong(line[i], line[i+1], m).OutOfRange?
  }

  /** What looking for a measure from segment i on ends in. */
  ghost function Lookup(line: seq<Point4D>, m: real, i: nat): Found
    decreases |line| - i
  {
    if i + 1 >= |line| then Nowhere
    else
      match SegmentLocateAlong(line[i], line[i+1], m)
      case Place(p) => At(i, p)
      case ZeroLength => Stuck
      case OutOfRange => Lookup(line, m, i + 1)
  }

  /** Looking for the two ends of an interval on both lines, in turn, meets a segment
      without measure length before one of them is found nowhere. */
  ghost predicate Blocked(l1: seq<Point4D>, l2: seq<Point4D>, t0: real, t1: real) {
    var a := Lookup(l1, t0, 0);
    a.Stuck? || (a.At? &&
      var b := Lookup(l1, t1, a.seg);
      b.Stuck? || (b.At? &&
        var c := Lookup(l2, t0, 0);
        c.Stuck? || (c.At? && Lookup(l2, t1, c.seg).Stuck?)))
  }

  /** The same for a single time. */
  ghost predicate BlockedAt(l1: seq<Point4D>, l2: seq<Point4D>, t: real) {
    Lookup(l1, t, 0).Stuck? || (Lookup(l1, t, 0).At? && Lookup(l2, t, 0).Stuck?)
  }

  /** ptarray_locate_along_linear: the first segment from `from` on that is alive at m. */
  method LocateAlongLinear(line: seq<Point4D>, m: real, from: nat) returns (r: Found)
    requires from < |line|
    ensures r.At? ==> from <= r.seg && r.seg + 1 < |line|
                      && SegmentLocateAlong(line[r.seg], line[r.seg+1], m) == Place(r.p)
                      && forall k: nat :: from <= k < r.seg ==> Misses(line, m, k)
    ensures r.Nowhere? <==> forall k: nat :: from <= k < |line| - 1 ==> Misses(line, m, k)
    ensures r == Lookup(line, m, from)
    ensures Trajectory(line) ==> !r.Stuck? && (r.At? <==> from + 1 < |line| && line[from].m <= m <= line[|line| - 1].m)
    ensures Trajectory(line) && r.At? ==> line[r.seg].m <= m <= line[r.seg+1].m && Alive(line, m) && r.p == Pos(line, m)
  {
    hide Pos, SegmentAt, SegmentLocateAlong;
    var p1 := line[from];
    var i := from + 1;
    while i < |line|
      invariant from + 1 <= i <= |line| && p1 == line[i-1]
      invariant forall k: nat :: from <= k < i - 1 ==> Misses(line, m, k)
      invariant Lookup(line, m, from) == Lookup(line, m, i - 1)
      invariant Trajectory(line) && line[from].m <= m && from + 1 < i ==> line[i-1].m < m
    {
      var p2 := line[i];
      LocatedIsPosition(p1, p2, m);
      var l := SegmentLocateAlong(p1, p2, m);
      match l
      case Place(p) =>
        assert !Misses(line, m, i - 1);
        if Trajectory(line) {
          PosOnSegment(line, m, i - 1);
          assert line[from].m <= line[i-1].m && line[i].m <= line[|line| - 1].m;
        }
        return At(i - 1, p);
      case ZeroLength =>
        assert !Misses(line, m, i - 1);
        return Stuck;
      case OutOfRange =>
      assert Misses(line, m, i - 1);
      p1 := p2;
      i := i + 1;
    }
    return Nowhere;
  }

  /** The measure range of the box computed for a line. */
  method MeasureRange(line: seq<Point4D>) returns (mmin: real, mmax: real)
    requires |line| > 0
    ensures forall i :: 0 <= i < |line| ==> mmin <= line[i].m <= mmax
    ensures exists i, j :: 0 <= i < |line| && 0 <= j < |line| && mmin == line[i].m && mmax == line[j].m
  {
    mmin, mmax := line[0].m, line[0].m;
    ghost var a, b := 0, 0;
    for i := 1 to |line|
      invariant forall k :: 0 <= k < i ==> mmin <= line[k].m <= mmax
      invariant 0 <= a < i && 0 <= b < i && mmin == line[a].m && mmax == line[b].m
    {
      if line[i].m < mmin {
        mmin := line[i].m;
        a := i;
      }
      if line[i].m > mmax {
        mmax := line[i].m;
        b := i;
      }
    }
  }

  /** ptarray_collect_mvals: append the measures in range to mvals from position n0. */
  method CollectMvals(line: seq<Point4D>, tmin: real, tmax: real, mvals: array<real>, n0: nat) returns (n: nat)
    requires n0 + |line| <= mvals.Length
    modifies mvals
    ensures n0 <= n <= n0 + |line| && mvals[..n0] == old(mvals[..n0])
    ensures forall v :: v in mvals[n0..n] <==> tmin <= v <= tmax && exists i :: 0 <= i < |line| && line[i].m == v
  {
    n := n0;
    for i := 0 to |line|
      invariant n0 <= n <= n0 + i && mvals[..n0] == old(mvals[..n0])
      invariant forall v :: v in mvals[n0..n] <==> tmin <= v <= tmax && exists k :: 0 <= k < i && line[k].m == v
    {
      if line[i].m >= tmin && line[i].m <= tmax {
        ghost var before := mvals[n0..n];
        mvals[n] := line[i].m;
        n := n + 1;
        assert mvals[n0..n] == before + [line[i].m];
      }
    }
  }

  function Itself(x: real): real { x }

  ghost predicate StrictlyAscending(s: seq<real>) {
    forall i, j :: 0 <= i < j < |s| ==> s[i] < s[j]
  }

  lemma AscendingAppend(s: seq<real>, x: real)
    requires StrictlyAscending(s) && s != [] && s[|s| - 1] < x
    ensures StrictlyAscending(s + [x])
  {
  }

  ghost predicate SameMembers(s: seq<real>, t: seq<real>) {
    forall v :: v in s <==> v in t
  }

  lemma MembersAppend(s: seq<real>, t: seq<real>, x: real)
    requires SameMembers(s, t)
    ensures SameMembers(s + [x], t + [x])
  {
  }

  lemma MembersRepeat(s: seq<real>, t: seq<real>, x: real)
    requires SameMembers(s, t) && x in s
    ensures SameMembers(s, t + [x])
  {
  }

  lemma MembersOfSame(s: seq<real>)
    ensures SameMembers(s, s)
  {
  }

  lemma OneAscends(v: real)
    ensures StrictlyAscending([v])
  {
  }

  lemma Neighbours(s: seq<real>, i: nat)
    requires Ascending(s, Itself) && 0 < i < |s|
    ensures s[i - 1] <= s[i]
  {
    assert Itself(s[i - 1]) <= Itself(s[i]);
  }

  /** uniq: squeeze equal neighbours out in place and return the number left; an empty
      array comes back as one element. */
  method Uniq(vals: array<real>, nvals: nat) returns (n: nat)
    requires nvals <= vals.Length && Ascending(vals[..nvals], Itself)
    modifies vals
    ensures nvals == 0 ==> n == 1 && vals[..] == old(vals[..])
    ensures nvals > 0 ==> 0 < n <= nvals && StrictlyAscending(vals[..n])
    ensures nvals > 0 ==> SameMembers(vals[..n], old(vals[..nvals]))
  {
    if nvals == 0 {
      return 1;
    }
    hide StrictlyAscending, Ascending, SameMembers, UniqueUntil;
    ghost var s := vals[..nvals];
    n := Squeeze(vals, nvals);
    UniqueInAll(vals[..n], s);
  }

  /** The loop of uniq. */
  method Squeeze(vals: array<real>, nvals: nat) returns (n: nat)
    requires 0 < nvals <= vals.Length && Ascending(vals[..nvals], Itself)
    modifies vals
    ensures n <= nvals && UniqueUntil(vals[..n], old(vals[..nvals]), nvals)
  {
    hide StrictlyAscending, Ascending, SameMembers, UniqueUntil;
    ghost var s := vals[..nvals];
    ghost var kept := s[..1];
    FirstKept(s);
    var last := 0;
    var i := 1;
    while i < nvals
      invariant 1 <= i <= nvals && last < i
      invariant forall k :: i <= k < nvals ==> vals[k] == s[k]
      invariant |kept| == last + 1 && forall k :: 0 <= k <= last ==> vals[k] == kept[k]
      invariant UniqueUntil(kept, s, i)
    {
      UniqStep(kept, s, i);
      if vals[i] != vals[last] {
        last := last + 1;
        vals[last] := vals[i];
        kept := kept + [s[i]];
      }
      i := i + 1;
    }
    assert vals[..last+1] == kept;
    return last + 1;
  }

  /** The first i elements without their repetitions. */
  ghost predicate UniqueUntil(kept: seq<real>, s: seq<real>, i: nat) {
    kept != [] && 0 < i <= |s| && kept[|kept| - 1] == s[i-1] && StrictlyAscending(kept) && SameMembers(kept, s[..i])
  }

  lemma FirstKept(s: seq<real>)
    requires s != []
    ensures UniqueUntil(s[..1], s, 1)
  {
    OneAscends(s[0]);
    MembersOfSame(s[..1]);
  }

  lemma UniqueInAll(kept: seq<real>, s: seq<real>)
    requires UniqueUntil(kept, s, |s|)
    ensures 0 < |kept| && StrictlyAscending(kept) && SameMembers(kept, s)
  {
    hide StrictlyAscending, SameMembers;
    assert s[..|s|] == s;
  }

  lemma UniqStep(kept: seq<real>, s: seq<real>, i: nat)
    requires UniqueUntil(kept, s, i) && i < |s| && Ascending(s, Itself)
    ensures kept[|kept| - 1] == s[i-1]
    ensures UniqueUntil(if s[i] != kept[|kept| - 1] then kept + [s[i]] else kept, s, i + 1)
  {
    hide StrictlyAscending, Ascending, SameMembers;
    Neighbours(s, i);
    assert s[..i+1] == s[..i] + [s[i]];
    if s[i] != kept[|kept| - 1] {
      AscendingAppend(kept, s[i]);
      MembersAppend(kept, s[..i], s[i]);
    } else {
      MembersRepeat(kept, s[..i], s[i]);
    }
  }

  /** Both trajectories exist at time T. */
  ghost predicate Together(l1: seq<Point4D>, l2: seq<Point4D>, T: real) {
    Trajectory(l1) && Trajectory(l2) && Alive(l1, T) && Alive(l2, T)
  }

  /** A time stamp of one of the two lines. */
  ghost predicate Stamp(l1: seq<Point4D>, l2: seq<Point4D>, T: real) {
    (exists i :: 0 <= i < |l1| && l1[i].m == T) || (exists i :: 0 <= i < |l2| && l2[i].m == T)
  }

  /** The common time range cut at every time stamp of either line. */
  ghost predicate CutsCommonTime(s: seq<real>, l1: seq<Point4D>, l2: seq<Point4D>) {
    && s != [] && StrictlyAscending(s)
    && (forall T :: Together(l1, l2, T) <==> s[0] <= T <= s[|s| - 1])
    && (forall i :: 0 < i < |s| ==> NoVertexBetween(l1, s[i-1], s[i]) && NoVertexBetween(l2, s[i-1], s[i]))
  }

  /** From the later start to the earlier end of two trajectories. */
  ghost predicate IsCommonRange(l1: seq<Point4D>, l2: seq<Point4D>, tmin: real, tmax: real) {
    && l1 != [] && l2 != []
    && tmin == (if l1[0].m > l2[0].m then l1[0].m else l2[0].m)
    && tmax == (if l1[|l1| - 1].m < l2[|l2| - 1].m then l1[|l1| - 1].m else l2[|l2| - 1].m)
  }

  lemma StampsCutTime(s: seq<real>, l1: seq<Point4D>, l2: seq<Point4D>, tmin: real, tmax: real)
    requires Trajectory(l1) && Trajectory(l2)
    requires IsCommonRange(l1, l2, tmin, tmax) && tmin <= tmax && StrictlyAscending(s)
    requires forall v :: v in s <==> tmin <= v <= tmax && Stamp(l1, l2, v)
    ensures CutsCommonTime(s, l1, l2) && s[0] == tmin && s[|s| - 1] == tmax
  {
    assert Stamp(l1, l2, tmin) && Stamp(l1, l2, tmax);
    assert tmin in s && tmax in s;
    assert s[0] in s && s[|s| - 1] in s;
    forall i | 0 < i < |s|
      ensures NoVertexBetween(l1, s[i-1], s[i]) && NoVertexBetween(l2, s[i-1], s[i])
    {
      forall k | 0 <= k < |l1|
        ensures !(s[i-1] < l1[k].m < s[i])
      {
        NoStampBetween(s, l1, l2, tmin, tmax, i, l1[k].m);
      }
      forall k | 0 <= k < |l2|
        ensures !(s[i-1] < l2[k].m < s[i])
      {
        NoStampBetween(s, l1, l2, tmin, tmax, i, l2[k].m);
      }
    }
  }

  lemma NoStampBetween(s: seq<real>, l1: seq<Point4D>, l2: seq<Point4D>, tmin: real, tmax: real, i: int, v: real)
    requires StrictlyAscending(s) && 0 < i < |s| && Stamp(l1, l2, v)
    requires forall u :: u in s <==> tmin <= u <= tmax && Stamp(l1, l2, u)
    ensures !(s[i-1] < v < s[i])
  {
    assert s[i-1] in s && s[i] in s;
    if tmin <= v <= tmax {
      var j :| 0 <= j < |s| && s[j] == v;
      assert j <= i - 1 || j >= i;
    }
  }

  /** The stamps of both lines in a range, ascending and without repetition; for two
      trajectories they cut the common time. */
  method CommonTimes(l1: seq<Point4D>, l2: seq<Point4D>, tmin: real, tmax: real) returns (mvals: array<real>, nmvals: nat)
    requires tmin <= tmax && Stamp(l1, l2, tmin)
    ensures 0 < nmvals <= mvals.Length && StrictlyAscending(mvals[..nmvals])
    ensures forall v :: v in mvals[..nmvals] <==> tmin <= v <= tmax && Stamp(l1, l2, v)
    ensures Trajectory(l1) && Trajectory(l2) && IsCommonRange(l1, l2, tmin, tmax)
            ==> CutsCommonTime(mvals[..nmvals], l1, l2) && mvals[..nmvals][0] == tmin && mvals[..nmvals][nmvals - 1] == tmax
  {
    hide Stamp, StrictlyAscending, CutsCommonTime, IsCommonRange;
    mvals, nmvals := CollectBoth(l1, l2, tmin, tmax);
    ghost var all := mvals[..nmvals];
    Qsort(mvals, nmvals, Itself);
    SameElements(mvals[..nmvals], all);
    assert tmin in all;
    nmvals := Uniq(mvals, nmvals);
    if Trajectory(l1) && Trajectory(l2) && IsCommonRange(l1, l2, tmin, tmax) {
      StampsCutTime(mvals[..nmvals], l1, l2, tmin, tmax);
    }
  }

  /** The stamps of both lines in a range. */
  method CollectBoth(l1: seq<Point4D>, l2: seq<Point4D>, tmin: real, tmax: real) returns (mvals: array<real>, nmvals: nat)
    ensures fresh(mvals) && nmvals <= mvals.Length
    ensures forall v :: v in mvals[..nmvals] <==> tmin <= v <= tmax && Stamp(l1, l2, v)
  {
    mvals := new real[|l1| + |l2|];
    nmvals := CollectMvals(l1, tmin, tmax, mvals, 0);
    ghost var n1, first := nmvals, mvals[..nmvals];
    assert first == mvals[0..n1];
    nmvals := CollectMvals(l2, tmin, tmax, mvals, nmvals);
    assert mvals[..nmvals] == first + mvals[n1..nmvals];
  }

  // ---- The two entry points ----

  /** t is the earliest common time at which the distance is globally least, and d2 the
      square of that distance. */
  ghost predicate EarliestApproach(l1: seq<Point4D>, l2: seq<Point4D>, t: real, d2: real) {
    && Together(l1, l2, t) && Gap2(l1, l2, t) == d2
    && forall T :: Together(l1, l2, T) ==> d2 <= Gap2(l1, l2, T) && (T < t ==> d2 < Gap2(l1, l2, T))
  }

  /** EarliestApproach as far as time `end`, under a ceiling taken at `start`. */
  ghost predicate BestUntil(l1: seq<Point4D>, l2: seq<Point4D>, start: real, end: real, t: real, d2: real) {
    && (forall T :: Together(l1, l2, T) && T <= end ==> d2 <= Gap2(l1, l2, T) && (T < t ==> d2 < Gap2(l1, l2, T)))
    && (if d2 < FLT_MAX then Together(l1, l2, t) && t <= end && Gap2(l1, l2, t) == d2 else d2 == FLT_MAX && t == start)
  }

  lemma IntervalGaps(l1: seq<Point4D>, l2: seq<Point4D>, t0: real, t1: real, s: real, T: real)
    requires Together(l1, l2, t0) && Together(l1, l2, t1) && t0 < t1
    requires NoVertexBetween(l1, t0, t1) && NoVertexBetween(l2, t0, t1)
    requires EarliestFraction(Pos(l1, t0), Pos(l1, t1), Pos(l2, t0), Pos(l2, t1), s)
    requires t0 <= T <= t1
    ensures var t := TimeAt(t0, t1, s);
            && Together(l1, l2, T) && Together(l1, l2, t) && t0 <= t <= t1
            && Gap2(l1, l2, t) == MovingDist2(Pos(l1, t0), Pos(l1, t1), Pos(l2, t0), Pos(l2, t1), s)
            && Gap2(l1, l2, t) <= Gap2(l1, l2, T)
            && (T < t ==> Gap2(l1, l2, t) < Gap2(l1, l2, T))
  {
    hide Pos, MovingDist2, Gap2;
    var u := TimeFraction(t0, t1, T);
    GapMoves(l1, l2, t0, t1, s);
    GapMoves(l1, l2, t0, t1, u);
    TimeInside(t0, t1, s);
    assert (t1 - t0)*(u - s) == TimeAt(t0, t1, u) - TimeAt(t0, t1, s);
    if u >= s {
      ProductNonNegative(t1 - t0, u - s);
    }
  }

  /** What one interval contributes: nothing when a line has no point there, or an error. */
  datatype Interval = Skipped | Broken | Best(t: real, dist2: real)

  /** The earliest time of least distance on [t0, t1]. */
  ghost predicate BestOn(l1: seq<Point4D>, l2: seq<Point4D>, t0: real, t1: real, t: real, dist2: real) {
    && t0 <= t <= t1 && Together(l1, l2, t) && Gap2(l1, l2, t) == dist2
    && (forall T :: t0 <= T <= t1 ==> Together(l1, l2, T) && dist2 <= Gap2(l1, l2, T))
    && (forall T :: t0 <= T < t && Together(l1, l2, T) ==> dist2 < Gap2(l1, l2, T))
  }

  /** An interval of common time without a vertex inside. */
  ghost predicate Clear(l1: seq<Point4D>, l2: seq<Point4D>, t0: real, t1: real) {
    && t0 < t1 && Together(l1, l2, t0) && Together(l1, l2, t1)
    && NoVertexBetween(l1, t0, t1) && NoVertexBetween(l2, t0, t1)
  }

  /** The closest approach on one interval between consecutive time stamps. */
  method ApproachBetween(l1: seq<Point4D>, l2: seq<Point4D>, t0: real, t1: real) returns (r: Interval)
    requires l1 != [] && l2 != []
    ensures r.Broken? <==> Blocked(l1, l2, t0, t1)
    ensures Clear(l1, l2, t0, t1) ==> r.Best? && BestOn(l1, l2, t0, t1, r.t, r.dist2)
  {
    hide Pos, MovingDist2, Gap2, Dist2, EarliestFraction, Misses, SegmentLocateAlong, Lookup;
    var p0 := LocateAlongLinear(l1, t0, 0);
    if !p0.At? {
      return if p0.Stuck? then Broken else Skipped;
    }
    var p1 := LocateAlongLinear(l1, t1, p0.seg);
    if !p1.At? {
      return if p1.Stuck? then Broken else Skipped;
    }
    var q0 := LocateAlongLinear(l2, t0, 0);
    if !q0.At? {
      return if q0.Stuck? then Broken else Skipped;
    }
    var q1 := LocateAlongLinear(l2, t1, q0.seg);
    if !q1.At? {
      return if q1.Stuck? then Broken else Skipped;
    }
    var t, p, q := SegmentsTcpa(p0.p, p1.p, q0.p, q1.p, t0, t1);
    ghost var s :| && EarliestFraction(p0.p, p1.p, q0.p, q1.p, s) && t == TimeAt(t0, t1, s)
                   && Dist2(p, q) == MovingDist2(p0.p, p1.p, q0.p, q1.p, s);
    if Clear(l1, l2, t0, t1) {
      IntervalIsBest(l1, l2, t0, t1, s);
    }
    return Best(t, Dist2(p, q));
  }

  lemma IntervalIsBest(l1: seq<Point4D>, l2: seq<Point4D>, t0: real, t1: real, s: real)
    requires Clear(l1, l2, t0, t1)
    requires EarliestFraction(Pos(l1, t0), Pos(l1, t1), Pos(l2, t0), Pos(l2, t1), s)
    ensures BestOn(l1, l2, t0, t1, TimeAt(t0, t1, s), MovingDist2(Pos(l1, t0), Pos(l1, t1), Pos(l2, t0), Pos(l2, t1), s))
  {
    hide Pos, MovingDist2, Gap2, EarliestFraction, TimeAt;
    IntervalGaps(l1, l2, t0, t1, s, t0);
    forall T | t0 <= T <= t1
      ensures var t := TimeAt(t0, t1, s);
              && Together(l1, l2, T) && Gap2(l1, l2, t) <= Gap2(l1, l2, T)
              && (T < t ==> Gap2(l1, l2, t) < Gap2(l1, l2, T))
    {
      IntervalGaps(l1, l2, t0, t1, s, T);
    }
  }

  /** The source's errors, its code -2, and its answer. */
  datatype TcpaResult = NoMeasure | TooFewPoints | NotFound | ZeroMeasure | NeverTogether | Closest(time: real, dist2: real)

  lemma StepKeepsBest(l1: seq<Point4D>, l2: seq<Point4D>, start: real, t0: real, t1: real,
                      best: real, best2: real, t: real, dist2: real)
    requires forall T :: Together(l1, l2, T) ==> start <= T
    requires start <= t0 && BestOn(l1, l2, t0, t1, t, dist2)
    requires if t0 == start then best2 == FLT_MAX && best == start else BestUntil(l1, l2, start, t0, best, best2)
    ensures if dist2 < best2 then BestUntil(l1, l2, start, t1, t, dist2) else BestUntil(l1, l2, start, t1, best, best2)
  {
    hide Gap2;
  }

  /** The squared distance at the only common time. */
  method DistanceAt(l1: seq<Point4D>, l2: seq<Point4D>, t0: real) returns (r: Interval)
    requires l1 != [] && l2 != []
    ensures r.Broken? <==> BlockedAt(l1, l2, t0)
    ensures Together(l1, l2, t0) ==> r == Best(t0, Gap2(l1, l2, t0))
  {
    hide Pos, Dist2, Gap2, Misses, SegmentLocateAlong, Lookup;
    var p0 := LocateAlongLinear(l1, t0, 0);
    if !p0.At? {
      return if p0.Stuck? then Broken else Skipped;
    }
    var p1 := LocateAlongLinear(l2, t0, 0);
    if !p1.At? {
      return if p1.Stuck? then Broken else Skipped;
    }
    if Together(l1, l2, t0) {
      GapIs(l1, l2, t0, p0.p, p1.p);
    }
    return Best(t0, Dist2(p0.p, p1.p));
  }

  lemma ClearInterval(s: seq<real>, l1: seq<Point4D>, l2: seq<Point4D>, i: int)
    requires CutsCommonTime(s, l1, l2) && 0 < i < |s|
    ensures Clear(l1, l2, s[i-1], s[i]) && s[0] <= s[i-1] && s[i] <= s[|s| - 1] && (i > 1 ==> s[0] < s[i-1])
    ensures forall T :: Together(l1, l2, T) ==> s[0] <= T
  {
    hide Trajectory, Alive;
    assert i > 1 ==> s[0] < s[i-1];
    assert i < |s| - 1 ==> s[i] < s[|s| - 1];
  }

  /** The loop over consecutive time stamps; false when a segment without measure length
      was met. */
  method SearchTimes(l1: seq<Point4D>, l2: seq<Point4D>, mvals: array<real>, nmvals: nat, tmin: real)
    returns (ok: bool, mintime: real, mindist2: real)
    requires 2 <= nmvals <= mvals.Length && l1 != [] && l2 != []
    ensures ok <==> NoneBlocked(mvals[..nmvals], l1, l2)
    ensures CutsCommonTime(mvals[..nmvals], l1, l2) && tmin == mvals[0]
            ==> ok && BestUntil(l1, l2, tmin, mvals[nmvals - 1], mintime, mindist2)
  {
    hide Gap2, BestUntil, Clear, BestOn, CutsCommonTime, Blocked;
    ghost var s := mvals[..nmvals];
    mintime, mindist2 := tmin, FLT_MAX;
    var i := 1;
    while i < nmvals
      invariant 1 <= i <= nmvals
      invariant i == 1 ==> mindist2 == FLT_MAX && mintime == tmin
      invariant forall j :: 0 < j < i ==> !Blocked(l1, l2, s[j-1], s[j])
      invariant i > 1 && CutsCommonTime(s, l1, l2) && tmin == s[0] ==> BestUntil(l1, l2, tmin, s[i-1], mintime, mindist2)
    {
      var t0, t1 := mvals[i-1], mvals[i];
      assert t0 == s[i-1] && t1 == s[i];
      if CutsCommonTime(s, l1, l2) {
        ClearInterval(s, l1, l2, i);
      }
      var r := ApproachBetween(l1, l2, t0, t1);
      if r.Broken? {
        return false, mintime, mindist2;
      }
      if r.Best? {
        if CutsCommonTime(s, l1, l2) && tmin == s[0] {
          StepKeepsBest(l1, l2, tmin, t0, t1, mintime, mindist2, r.t, r.dist2);
        }
        if r.dist2 < mindist2 {
          mindist2 := r.dist2;
          mintime := r.t;
        }
      }
      i := i + 1;
    }
    assert s[nmvals - 1] == mvals[nmvals - 1];
    ok := true;
  }

  /** All measures of one line are before all measures of the other. */
  ghost predicate MeasuresApart(l1: seq<Point4D>, l2: seq<Point4D>) {
    || (forall i, j :: 0 <= i < |l1| && 0 <= j < |l2| ==> l1[i].m < l2[j].m)
    || (forall i, j :: 0 <= i < |l1| && 0 <= j < |l2| ==> l2[j].m < l1[i].m)
  }

  /** The measures of a line reach from T or before to T or after. */
  ghost predicate Spanned(line: seq<Point4D>, T: real) {
    (exists i :: 0 <= i < |line| && line[i].m <= T) && (exists i :: 0 <= i < |line| && T <= line[i].m)
  }

  /** A stamp that both lines span. */
  ghost predicate CommonStamp(l1: seq<Point4D>, l2: seq<Point4D>, T: real) {
    Stamp(l1, l2, T) && Spanned(l1, T) && Spanned(l2, T)
  }

  ghost predicate Consecutive(l1: seq<Point4D>, l2: seq<Point4D>, t0: real, t1: real) {
    && t0 < t1 && CommonStamp(l1, l2, t0) && CommonStamp(l1, l2, t1)
    && forall T :: t0 < T < t1 ==> !CommonStamp(l1, l2, T)
  }

  ghost predicate OnlyStamp(l1: seq<Point4D>, l2: seq<Point4D>, t: real) {
    CommonStamp(l1, l2, t) && forall T :: CommonStamp(l1, l2, T) ==> T == t
  }

  /** Between two consecutive common stamps, or at the only one, a segment without measure
      length is met. */
  ghost predicate SomeBlocked(l1: seq<Point4D>, l2: seq<Point4D>) {
    || (exists t0, t1 :: Consecutive(l1, l2, t0, t1) && Blocked(l1, l2, t0, t1))
    || (exists t :: OnlyStamp(l1, l2, t) && BlockedAt(l1, l2, t))
  }

  /** A list of all common stamps, ascending. */
  ghost predicate ListsStamps(s: seq<real>, l1: seq<Point4D>, l2: seq<Point4D>) {
    s != [] && StrictlyAscending(s) && forall v :: v in s <==> CommonStamp(l1, l2, v)
  }

  /** No segment without measure length is met between the entries of a list of times. */
  ghost predicate NoneBlocked(s: seq<real>, l1: seq<Point4D>, l2: seq<Point4D>) {
    forall i :: 0 < i < |s| ==> !Blocked(l1, l2, s[i-1], s[i])
  }

  lemma ConsecutiveInList(s: seq<real>, l1: seq<Point4D>, l2: seq<Point4D>, i: int)
    requires ListsStamps(s, l1, l2) && 0 < i < |s|
    ensures Consecutive(l1, l2, s[i-1], s[i])
  {
    hide CommonStamp;
    assert s[i-1] in s && s[i] in s;
    forall k | 0 <= k < |s|
      ensures !(s[i-1] < s[k] < s[i])
    {
    }
  }

  lemma ConsecutiveIndex(s: seq<real>, l1: seq<Point4D>, l2: seq<Point4D>, t0: real, t1: real) returns (i: int)
    requires ListsStamps(s, l1, l2) && Consecutive(l1, l2, t0, t1)
    ensures 0 < i < |s| && s[i-1] == t0 && s[i] == t1
  {
    hide CommonStamp;
    assert t0 in s && t1 in s;
    var j :| 0 <= j < |s| && s[j] == t0;
    i :| 0 <= i < |s| && s[i] == t1;
    assert j < i;
    assert s[i-1] in s && s[j] <= s[i-1] < t1;
  }

  lemma OnlyInList(s: seq<real>, l1: seq<Point4D>, l2: seq<Point4D>)
    requires ListsStamps(s, l1, l2)
    ensures forall t :: OnlyStamp(l1, l2, t) <==> |s| == 1 && t == s[0]
  {
    hide CommonStamp;
    assert s[0] in s && s[|s| - 1] in s;
    if |s| == 1 {
      assert forall v :: v in s <==> v == s[0];
    } else {
      assert s[0] < s[|s| - 1];
    }
  }

  lemma BlockedInList(s: seq<real>, l1: seq<Point4D>, l2: seq<Point4D>)
    requires ListsStamps(s, l1, l2)
    ensures SomeBlocked(l1, l2) <==> if |s| == 1 then BlockedAt(l1, l2, s[0]) else !NoneBlocked(s, l1, l2)
  {
    hide Blocked, BlockedAt, CommonStamp, OnlyStamp, Consecutive, ListsStamps;
    OnlyInList(s, l1, l2);
    forall t0, t1 | Consecutive(l1, l2, t0, t1)
      ensures exists i :: 0 < i < |s| && s[i-1] == t0 && s[i] == t1
    {
      var i := ConsecutiveIndex(s, l1, l2, t0, t1);
    }
    forall i | 0 < i < |s|
      ensures Consecutive(l1, l2, s[i-1], s[i])
    {
      ConsecutiveInList(s, l1, l2, i);
    }
  }

  lemma SpannedIs(line: seq<Point4D>, mmin: real, mmax: real)
    requires forall i :: 0 <= i < |line| ==> mmin <= line[i].m <= mmax
    requires exists i, j :: 0 <= i < |line| && 0 <= j < |line| && mmin == line[i].m && mmax == line[j].m
    ensures forall T :: Spanned(line, T) <==> mmin <= T <= mmax
  {
  }

  /** The common measure range of two lines: from the later of their least measures to the
      earlier of their greatest. */
  method CommonRange(l1: seq<Point4D>, l2: seq<Point4D>) returns (tmin: real, tmax: real)
    requires l1 != [] && l2 != []
    ensures Stamp(l1, l2, tmin) && Stamp(l1, l2, tmax)
    ensures tmax < tmin <==> MeasuresApart(l1, l2)
    ensures forall T :: tmin <= T <= tmax <==> Spanned(l1, T) && Spanned(l2, T)
    ensures Trajectory(l1) && Trajectory(l2) ==> IsCommonRange(l1, l2, tmin, tmax)
    ensures Trajectory(l1) && Trajectory(l2) ==> forall T :: Together(l1, l2, T) <==> tmin <= T <= tmax
  {
    hide Together, Trajectory, Stamp, MeasuresApart;
    var mmin1, mmax1 := MeasureRange(l1);
    var mmin2, mmax2 := MeasureRange(l2);
    tmin := if mmin1 > mmin2 then mmin1 else mmin2;
    tmax := if mmax1 < mmax2 then mmax1 else mmax2;
    RangeOfBoth(l1, l2, mmin1, mmax1, mmin2, mmax2);
    if Trajectory(l1) && Trajectory(l2) {
      EndMeasures(l1, mmin1, mmax1);
      EndMeasures(l2, mmin2, mmax2);
      TogetherIn(l1, l2, tmin, tmax);
    }
  }

  ghost predicate RangeOf(line: seq<Point4D>, mmin: real, mmax: real) {
    && (forall i :: 0 <= i < |line| ==> mmin <= line[i].m <= mmax)
    && (exists i, j :: 0 <= i < |line| && 0 <= j < |line| && mmin == line[i].m && mmax == line[j].m)
  }

  lemma RangeOfBoth(l1: seq<Point4D>, l2: seq<Point4D>, mmin1: real, mmax1: real, mmin2: real, mmax2: real)
    requires RangeOf(l1, mmin1, mmax1) && RangeOf(l2, mmin2, mmax2)
    ensures var tmin, tmax := if mmin1 > mmin2 then mmin1 else mmin2, if mmax1 < mmax2 then mmax1 else mmax2;
            && Stamp(l1, l2, tmin) && Stamp(l1, l2, tmax)
            && (tmax < tmin <==> MeasuresApart(l1, l2))
            && forall T :: tmin <= T <= tmax <==> Spanned(l1, T) && Spanned(l2, T)
  {
    SpannedIs(l1, mmin1, mmax1);
    SpannedIs(l2, mmin2, mmax2);
    hide Spanned;
  }

  lemma TogetherIn(l1: seq<Point4D>, l2: seq<Point4D>, tmin: real, tmax: real)
    requires Trajectory(l1) && Trajectory(l2) && IsCommonRange(l1, l2, tmin, tmax)
    ensures forall T :: Together(l1, l2, T) <==> tmin <= T <= tmax
  {
    hide Trajectory;
    TwoOrMore(l1);
    TwoOrMore(l2);
  }

  lemma TwoOrMore(line: seq<Point4D>)
    requires Trajectory(line)
    ensures |line| >= 2
  {
  }

  /** rtgeom_tcpa. What it promises about the answer it promises for trajectories; other
      lines can also end in one of the two errors on measures. */
  method Tcpa(l1: seq<Point4D>, hasm1: bool, l2: seq<Point4D>, hasm2: bool) returns (r: TcpaResult)
    ensures r.NoMeasure? <==> !hasm1 || !hasm2
    ensures r.TooFewPoints? <==> hasm1 && hasm2 && (|l1| < 2 || |l2| < 2)
    ensures r.NeverTogether? <==> hasm1 && hasm2 && |l1| >= 2 && |l2| >= 2 && MeasuresApart(l1, l2)
    ensures r.NeverTogether? ==> forall T :: !Together(l1, l2, T)
    ensures r.ZeroMeasure? <==> hasm1 && hasm2 && |l1| >= 2 && |l2| >= 2 && !MeasuresApart(l1, l2) && SomeBlocked(l1, l2)
    ensures Trajectory(l1) && Trajectory(l2) ==> !r.NotFound? && !r.ZeroMeasure?
    ensures Trajectory(l1) && Trajectory(l2) && r.Closest? ==> Together(l1, l2, r.time)
    ensures Trajectory(l1) && Trajectory(l2) && r.Closest?
            ==> (if TooFar(l1, l2) then r.dist2 == FLT_MAX && IsFirstTime(l1, l2, r.time)
                 else EarliestApproach(l1, l2, r.time, r.dist2))
    ensures Trajectory(l1) && Trajectory(l2) && r.Closest?
            && (exists T :: Together(l1, l2, T) && Gap2(l1, l2, T) < 340282346638528859811704183484516925440.0)
            ==> EarliestApproach(l1, l2, r.time, r.dist2)
    ensures Trajectory(l1) && Trajectory(l2) && r.Closest?
            ==> (EarliestApproach(l1, l2, r.time, r.dist2) <==> !TooFar(l1, l2) || Gap2(l1, l2, r.time) == FLT_MAX)
  {
    if !hasm1 || !hasm2 {
      return NoMeasure;
    }
    if |l1| < 2 || |l2| < 2 {
      return TooFewPoints;
    }
    hide Gap2, Trajectory, MeasuresApart, EarliestApproach, IsFirstTime, IsCommonRange, Stamp, Spanned, SomeBlocked;
    var tmin, tmax := CommonRange(l1, l2);
    if tmax < tmin {
      return NeverTogether;
    }
    r := EarliestIn(l1, l2, tmin, tmax);
  }

  /** The search over the common range. */
  method EarliestIn(l1: seq<Point4D>, l2: seq<Point4D>, tmin: real, tmax: real) returns (r: TcpaResult)
    requires l1 != [] && l2 != [] && tmin <= tmax && Stamp(l1, l2, tmin)
    requires forall T :: tmin <= T <= tmax <==> Spanned(l1, T) && Spanned(l2, T)
    requires Trajectory(l1) && Trajectory(l2) ==> IsCommonRange(l1, l2, tmin, tmax)
    requires Trajectory(l1) && Trajectory(l2) ==> forall T :: Together(l1, l2, T) <==> tmin <= T <= tmax
    ensures !r.NoMeasure? && !r.TooFewPoints? && !r.NeverTogether?
    ensures r.ZeroMeasure? <==> SomeBlocked(l1, l2)
    ensures Trajectory(l1) && Trajectory(l2) ==> r.Closest? && IsAnswer(l1, l2, r.time, r.dist2)
  {
    hide Gap2, Trajectory, BestUntil, IsAnswer, CutsCommonTime, IsCommonRange, Stamp, StrictlyAscending, Spanned, SomeBlocked,
         NoneBlocked, BlockedAt, ListsStamps;
    ghost var moving := Trajectory(l1) && Trajectory(l2);
    var mvals, nmvals := CommonTimes(l1, l2, tmin, tmax);
    ghost var s := mvals[..nmvals];
    TimesAreStamps(s, l1, l2, tmin, tmax);
    BlockedInList(s, l1, l2);
    if moving {
      TwoTimes(s, l1, l2, tmin, tmax);
    }
    assert s[0] == mvals[0];
    if nmvals < 2 {
      var t0 := mvals[0];
      var at := DistanceAt(l1, l2, t0);
      if moving {
        SingleTime(l1, l2, t0);
      }
      match at
      case Best(_, dist2) => return Closest(t0, dist2);
      case Skipped => return NotFound;
      case Broken => return ZeroMeasure;
    }
    var ok, mintime, mindist2 := SearchTimes(l1, l2, mvals, nmvals, tmin);
    if !ok {
      return ZeroMeasure;
    }
    if moving {
      BestIsAnswer(l1, l2, tmin, tmax, mintime, mindist2);
    }
    return Closest(mintime, mindist2);
  }

  lemma TimesAreStamps(s: seq<real>, l1: seq<Point4D>, l2: seq<Point4D>, tmin: real, tmax: real)
    requires s != [] && StrictlyAscending(s) && forall v :: v in s <==> tmin <= v <= tmax && Stamp(l1, l2, v)
    requires forall T :: tmin <= T <= tmax <==> Spanned(l1, T) && Spanned(l2, T)
    ensures ListsStamps(s, l1, l2)
  {
    hide Stamp, Spanned;
  }

  /** What the search promises of its answer. */
  ghost predicate IsAnswer(l1: seq<Point4D>, l2: seq<Point4D>, t: real, d2: real) {
    && Together(l1, l2, t)
    && (if TooFar(l1, l2) then d2 == FLT_MAX && IsFirstTime(l1, l2, t) else EarliestApproach(l1, l2, t, d2))
    && (EarliestApproach(l1, l2, t, d2) <==> !TooFar(l1, l2) || Gap2(l1, l2, t) == FLT_MAX)
  }

  lemma TwoTimes(s: seq<real>, l1: seq<Point4D>, l2: seq<Point4D>, tmin: real, tmax: real)
    requires CutsCommonTime(s, l1, l2) && s[0] == tmin && s[|s| - 1] == tmax
    ensures |s| < 2 <==> tmin == tmax
    ensures |s| >= 2 ==> tmin < tmax
    ensures Together(l1, l2, tmin)
  {
  }

  /** Over a common range of more than an instant, never nearer than the start value of
      the search. */
  ghost predicate TooFar(l1: seq<Point4D>, l2: seq<Point4D>) {
    && (exists T, T' :: Together(l1, l2, T) && Together(l1, l2, T') && T != T')
    && (forall T :: Together(l1, l2, T) ==> FLT_MAX <= Gap2(l1, l2, T))
  }

  ghost predicate IsFirstTime(l1: seq<Point4D>, l2: seq<Point4D>, t: real) {
    Together(l1, l2, t) && forall T :: Together(l1, l2, T) ==> t <= T
  }

  lemma EndMeasures(l: seq<Point4D>, mmin: real, mmax: real)
    requires Trajectory(l)
    requires forall i :: 0 <= i < |l| ==> mmin <= l[i].m <= mmax
    requires exists i, j :: 0 <= i < |l| && 0 <= j < |l| && mmin == l[i].m && mmax == l[j].m
    ensures mmin == l[0].m && mmax == l[|l| - 1].m
  {
  }

  lemma SingleTime(l1: seq<Point4D>, l2: seq<Point4D>, t0: real)
    requires forall T :: Together(l1, l2, T) <==> t0 <= T <= t0
    ensures Together(l1, l2, t0) && IsAnswer(l1, l2, t0, Gap2(l1, l2, t0))
  {
    assert Together(l1, l2, t0);
  }

  lemma BestIsAnswer(l1: seq<Point4D>, l2: seq<Point4D>, tmin: real, tmax: real, t: real, d2: real)
    requires tmin < tmax && forall T :: Together(l1, l2, T) <==> tmin <= T <= tmax
    requires BestUntil(l1, l2, tmin, tmax, t, d2)
    ensures IsAnswer(l1, l2, t, d2)
  {
    hide Gap2;
    assert Together(l1, l2, tmin) && Together(l1, l2, tmax);
  }

  const FAR1 := [Point4D(0.0, 0.0, 0.0, 0.0), Point4D(0.0, 0.0, 0.0, 1.0)]
  const FAR2 := [Point4D(40000000000000000000.0, 0.0, 0.0, 0.0), Point4D(20000000000000000000.0, 0.0, 0.0, 1.0)]

  lemma FarPlaces(T: real)
    requires 0.0 <= T <= 1.0
    ensures Together(FAR1, FAR2, T)
    ensures Pos(FAR1, T) == Point4D(0.0, 0.0, 0.0, T)
    ensures Pos(FAR2, T) == Point4D(40000000000000000000.0 - 20000000000000000000.0*T, 0.0, 0.0, T)
  {
    PosOnSegment(FAR1, T, 0);
    PosOnSegment(FAR2, T, 0);
    assert Fraction(FAR1[0], FAR1[1], T) == T && Fraction(FAR2[0], FAR2[1], T) == T;
  }

  lemma FarGap(T: real)
    requires 0.0 <= T <= 1.0
    ensures Together(FAR1, FAR2, T)
    ensures var x := 40000000000000000000.0 - 20000000000000000000.0*T; Gap2(FAR1, FAR2, T) == x*x >= FLT_MAX
  {
    hide Pos;
    FarPlaces(T);
    SquareMonotone(20000000000000000000.0, 40000000000000000000.0 - 20000000000000000000.0*T);
  }

  /** Beyond the start value of the search the answer is the first common time, whether
      or not that is the closest approach: these lines keep drawing nearer. */
  lemma FarLinesMiss()
    ensures Trajectory(FAR1) && Trajectory(FAR2) && TooFar(FAR1, FAR2) && IsFirstTime(FAR1, FAR2, 0.0)
    ensures !EarliestApproach(FAR1, FAR2, 0.0, Gap2(FAR1, FAR2, 0.0))
  {
    hide Gap2;
    FarGap(0.0);
    FarGap(1.0);
    forall T | Together(FAR1, FAR2, T)
      ensures FLT_MAX <= Gap2(FAR1, FAR2, T)
    {
      FarGap(T);
    }
  }

  /** Errors on the inputs, errors on measures, and the answer. */
  datatype WithinResult = Refused | ZeroLengthMet | Answer(within: bool)

  /** Near enough at some common time; with a negative distance only over more than an
      instant, where squares are compared. */
  ghost predicate WithinAtSomeTime(l1: seq<Point4D>, l2: seq<Point4D>, maxdist: real) {
    && WithinOnce(l1, l2, maxdist*maxdist)
    && (maxdist >= 0.0 || exists T, T' :: Together(l1, l2, T) && Together(l1, l2, T') && T != T')
  }

  /** rtgeom_cpa_within. */
  method CpaWithin(l1: seq<Point4D>, hasm1: bool, l2: seq<Point4D>, hasm2: bool, maxdist: real) returns (r: WithinResult)
    ensures r.Refused? <==> !hasm1 || !hasm2 || |l1| < 2 || |l2| < 2
    ensures r.ZeroLengthMet? ==> !MeasuresApart(l1, l2) && SomeBlocked(l1, l2)
    ensures r == Answer(false) ==> MeasuresApart(l1, l2) || !SomeBlocked(l1, l2)
    ensures Trajectory(l1) && Trajectory(l2) ==> !r.ZeroLengthMet?
    ensures Trajectory(l1) && Trajectory(l2) && r.Answer? ==> (r.within <==> WithinAtSomeTime(l1, l2, maxdist))
  {
    if !hasm1 || !hasm2 {
      return Refused;
    }
    if |l1| < 2 || |l2| < 2 {
      return Refused;
    }
    hide Gap2, Trajectory, MeasuresApart, IsCommonRange, Stamp, Spanned, SomeBlocked, WithinAtSomeTime;
    var tmin, tmax := CommonRange(l1, l2);
    if tmax < tmin {
      if Trajectory(l1) && Trajectory(l2) {
        WithinByRange(l1, l2, tmin, tmax, maxdist);
      }
      return Answer(false);
    }
    r := WithinIn(l1, l2, tmin, tmax, maxdist);
  }

  /** The search over the common range. */
  method WithinIn(l1: seq<Point4D>, l2: seq<Point4D>, tmin: real, tmax: real, maxdist: real) returns (r: WithinResult)
    requires l1 != [] && l2 != [] && tmin <= tmax && Stamp(l1, l2, tmin)
    requires forall T :: tmin <= T <= tmax <==> Spanned(l1, T) && Spanned(l2, T)
    requires Trajectory(l1) && Trajectory(l2) ==> IsCommonRange(l1, l2, tmin, tmax)
    requires Trajectory(l1) && Trajectory(l2) ==> forall T :: Together(l1, l2, T) <==> tmin <= T <= tmax
    ensures !r.Refused?
    ensures r.ZeroLengthMet? ==> SomeBlocked(l1, l2)
    ensures r == Answer(false) ==> !SomeBlocked(l1, l2)
    ensures Trajectory(l1) && Trajectory(l2) ==> r == Answer(WithinAtSomeTime(l1, l2, maxdist))
  {
    hide Gap2, Trajectory, CutsCommonTime, IsCommonRange, Stamp, StrictlyAscending, Spanned, SomeBlocked, WithinOnce,
         WithinAtSomeTime, NoneBlocked, BlockedAt, ListsStamps;
    ghost var moving := Trajectory(l1) && Trajectory(l2);
    var maxdist2 := maxdist*maxdist;
    var mvals, nmvals := CommonTimes(l1, l2, tmin, tmax);
    ghost var s := mvals[..nmvals];
    TimesAreStamps(s, l1, l2, tmin, tmax);
    BlockedInList(s, l1, l2);
    if moving {
      WithinByRange(l1, l2, tmin, tmax, maxdist);
      TwoTimes(s, l1, l2, tmin, tmax);
    }
    assert s[0] == mvals[0];
    if nmvals < 2 {
      var at := DistanceAt(l1, l2, mvals[0]);
      match at
      case Best(_, dist2) => return Answer(maxdist >= 0.0 && dist2 <= maxdist2);
      case Skipped => return Answer(false);
      case Broken => return ZeroLengthMet;
    }
    var ok, within := SearchWithin(l1, l2, mvals, nmvals, maxdist2);
    if !ok {
      return ZeroLengthMet;
    }
    return Answer(within);
  }

  lemma WithinByRange(l1: seq<Point4D>, l2: seq<Point4D>, tmin: real, tmax: real, maxdist: real)
    requires forall T :: Together(l1, l2, T) <==> tmin <= T <= tmax
    ensures tmax < tmin ==> !WithinAtSomeTime(l1, l2, maxdist)
    ensures tmin == tmax ==> (WithinAtSomeTime(l1, l2, maxdist)
                              <==> maxdist >= 0.0 && Together(l1, l2, tmin) && Gap2(l1, l2, tmin) <= maxdist*maxdist)
    ensures tmin < tmax ==> (WithinAtSomeTime(l1, l2, maxdist) <==> WithinOnce(l1, l2, maxdist*maxdist))
  {
    hide Gap2, Trajectory, Alive;
    if tmin < tmax {
      assert Together(l1, l2, tmin) && Together(l1, l2, tmax);
    } else if tmin == tmax {
      assert Together(l1, l2, tmin);
    }
  }

  /** The loop over consecutive time stamps, stopping at the first one near enough. */
  method SearchWithin(l1: seq<Point4D>, l2: seq<Point4D>, mvals: array<real>, nmvals: nat, maxdist2: real)
    returns (ok: bool, within: bool)
    requires 2 <= nmvals <= mvals.Length && l1 != [] && l2 != []
    ensures !ok ==> !NoneBlocked(mvals[..nmvals], l1, l2)
    ensures ok && !within ==> NoneBlocked(mvals[..nmvals], l1, l2)
    ensures CutsCommonTime(mvals[..nmvals], l1, l2)
            ==> ok && (within <==> WithinOnce(l1, l2, maxdist2))
  {
    hide Gap2, Trajectory, Alive, Clear, BestOn, FartherUntil, CutsCommonTime, WithinOnce, Blocked;
    ghost var s := mvals[..nmvals];
    ghost var cut := CutsCommonTime(s, l1, l2);
    var i := 1;
    while i < nmvals
      invariant 1 <= i <= nmvals
      invariant forall j :: 0 < j < i ==> !Blocked(l1, l2, s[j-1], s[j])
      invariant i > 1 && cut ==> FartherUntil(l1, l2, s[i-1], maxdist2)
    {
      var t0, t1 := mvals[i-1], mvals[i];
      assert t0 == s[i-1] && t1 == s[i];
      if cut {
        ClearInterval(s, l1, l2, i);
      }
      var r := ApproachBetween(l1, l2, t0, t1);
      if r.Broken? {
        return false, false;
      }
      if cut {
        StepWithin(l1, l2, s[0], t0, t1, r.t, r.dist2, maxdist2);
      }
      if r.Best? && r.dist2 <= maxdist2 {
        return true, true;
      }
      i := i + 1;
    }
    if cut {
      NeverWithin(s, l1, l2, maxdist2);
    }
    return true, false;
  }

  /** Near enough at some common time. */
  ghost predicate WithinOnce(l1: seq<Point4D>, l2: seq<Point4D>, maxdist2: real) {
    exists T :: Together(l1, l2, T) && Gap2(l1, l2, T) <= maxdist2
  }

  /** Not near enough up to time `end`. */
  ghost predicate FartherUntil(l1: seq<Point4D>, l2: seq<Point4D>, end: real, maxdist2: real) {
    forall T :: Together(l1, l2, T) && T <= end ==> maxdist2 < Gap2(l1, l2, T)
  }

  lemma StepWithin(l1: seq<Point4D>, l2: seq<Point4D>, start: real, t0: real, t1: real, t: real, dist2: real,
                   maxdist2: real)
    requires BestOn(l1, l2, t0, t1, t, dist2) && start <= t0
    requires forall T :: Together(l1, l2, T) ==> start <= T
    requires t0 == start || FartherUntil(l1, l2, t0, maxdist2)
    ensures if dist2 <= maxdist2 then WithinOnce(l1, l2, maxdist2) else FartherUntil(l1, l2, t1, maxdist2)
  {
    hide Gap2;
  }

  lemma NeverWithin(s: seq<real>, l1: seq<Point4D>, l2: seq<Point4D>, maxdist2: real)
    requires CutsCommonTime(s, l1, l2) && FartherUntil(l1, l2, s[|s| - 1], maxdist2)
    ensures !WithinOnce(l1, l2, maxdist2)
  {
    hide Gap2, NoVertexBetween, StrictlyAscending;
  }

  lemma GapIs(l1: seq<Point4D>, l2: seq<Point4D>, T: real, p: Point4D, q: Point4D)
    requires Together(l1, l2, T) && p == Pos(l1, T) && q == Pos(l2, T)
    ensures Gap2(l1, l2, T) == Dist2(p, q)
  {
  }
}
