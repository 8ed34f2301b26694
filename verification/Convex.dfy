/** Squared distance between two moving points, as a convex quadratic form.

    If P(s) = P0 + s*u and Q(t) = Q0 + t*v then |P(s) - Q(t)|^2 is the quadratic
    below with a = u.u, b = u.v, c = v.v, d = u.w, e = v.w, f = w.w and
    w = P0 - Q0.  The planar and the spatial distance engines share these facts. */
module Convex {
  const FP_TOLERANCE := 0.000000000001

  const FLT_MAX := 340282346638528859811704183484516925440.0

  /** FP_EQUALS. */
  predicate FpEquals(a: real, b: real) { -FP_TOLERANCE <= a - b <= FP_TOLERANCE }

  const DIST_MAX := -1
  const DIST_MIN := 1

  /** In a search of this mode, d would replace the recorded square. */
  predicate Beats(mode: int, d: real, best: real) {
    if mode == DIST_MIN then d < best else d > best
  }

  datatype Quad = Quad(a: real, b: real, c: real, d: real, e: real, f: real) {
    function At(s: real, t: real): real {
      a*s*s - 2.0*b*s*t + c*t*t + 2.0*d*s - 2.0*e*t + f
    }

    /** The pure second-degree part, taken at a direction. */
    function Form(x: real, y: real): real {
      a*x*x - 2.0*b*x*y + c*y*y
    }

    /** The derivative at (s,t) in a direction. */
    function Slope(s: real, t: real, x: real, y: real): real {
      2.0*(a*s*x - b*(s*y + t*x) + c*t*y + d*x - e*y)
    }
  }

  predicate InUnit(t: real) { 0.0 <= t <= 1.0 }

  predicate InSquare(s: real, t: real) { InUnit(s) && InUnit(t) }

  /** (s,t) lies on an edge of the unit square that (r0,s0) is strictly beyond. */
  predicate OnViolatedEdge(s: real, t: real, r0: real, s0: real) {
    InSquare(s, t) &&
    (|| (s == 0.0 && r0 < 0.0)
     || (s == 1.0 && r0 > 1.0)
     || (t == 0.0 && s0 < 0.0)
     || (t == 1.0 && s0 > 1.0))
  }

  lemma ProductNonNegative(x: real, y: real)
    requires x >= 0.0 && y >= 0.0
    ensures x*y >= 0.0
  {
  }

  // Facts about squares are handed out through a named result: the solver
  // rewrites a bare "x*x > 0" into "x != 0" and then no longer has the product.

  lemma ProductPositive(x: real, y: real) returns (z: real)
    requires x > 0.0 && y > 0.0
    ensures z == x*y && z > 0.0
  {
    z := x*y;
  }

  lemma SquarePositive(x: real) returns (z: real)
    requires x != 0.0
    ensures z == x*x && z > 0.0
  {
    if x > 0.0 {
      z := ProductPositive(x, x);
    } else {
      z := ProductPositive(-x, -x);
      assert (-x)*(-x) == x*x;
    }
  }

  lemma SquareNonNegative(x: real) returns (z: real)
    ensures z == x*x && z >= 0.0
  {
    z := 0.0;
    if x != 0.0 {
      z := SquarePositive(x);
    }
  }

  lemma OppositeSquare(x: real, z: real)
    requires x == -z
    ensures x*x == z*z
  {
  }

  lemma NonZeroFactor(b: real, z: real)
    requires b != 0.0 && b*z == 0.0
    ensures z == 0.0
  {
    assert z == (b*z) / b;
  }

  /** The parameter in [0,1] nearest to r. */
  function Nearest(r: real): (t: real)
    ensures InUnit(t)
  {
    if r < 0.0 then 0.0 else if r >= 1.0 then 1.0 else r
  }

  /** A parabola with its vertex at r, zero at zero. */
  function Parabola(r: real, t: real): real { t*t - 2.0*t*r }

  lemma NearestIsLowest(r: real, t: real)
    requires InUnit(t)
    ensures Parabola(r, Nearest(r)) <= Parabola(r, t)
  {
    if r < 0.0 {
      ProductNonNegative(t, -r);
    } else if r >= 1.0 {
      ProductNonNegative(1.0 - t, 2.0*r - 1.0 - t);
    } else {
      assert (t - r)*(t - r) >= 0.0;
    }
  }

  lemma ScaledLess(l: real, x: real, y: real)
    requires l >= 0.0 && x <= y
    ensures l*x <= l*y
  {
    ProductNonNegative(l, y - x);
  }

  lemma ScaledParabola(l: real, dot: real, r: real, t: real)
    requires r*l == dot
    ensures t*t*l - 2.0*t*dot == l*Parabola(r, t)
  {
    assert t*t*l - 2.0*t*(r*l) == l*(t*t - 2.0*t*r);
  }

  /** On the unit interval the parabola is highest at the end away from r. */
  lemma ParabolaHighest(r: real, t: real)
    requires InUnit(t)
    ensures Parabola(r, t) <= Parabola(r, if r >= 0.5 then 0.0 else 1.0)
  {
    ProductNonNegative(t, 1.0 - t);
    if r >= 0.5 {
      ProductNonNegative(t, 2.0*r - 1.0);
    } else {
      ProductNonNegative(1.0 - t, 1.0 - 2.0*r);
    }
  }

  lemma DivideBack(x: real, y: real)
    requires y != 0.0
    ensures (x / y)*y == x
  {
  }

  lemma SquareMonotone(x: real, y: real)
    requires 0.0 <= x <= y
    ensures x*x <= y*y
  {
    assert x*x <= x*y;
    assert x*y <= y*y;
  }

  lemma UnitQuotient(x: real, g: real) returns (l: real)
    requires 0.0 <= x <= g && g > 0.0
    ensures InUnit(l) && l*g == x && l*(-g) == -x
  {
    l := x / g;
    assert l*g == x;
    if l > 1.0 {
      var z := ProductPositive(l - 1.0, g);
    } else if l < 0.0 {
      var z := ProductPositive(-l, g);
    }
  }

  /** The point at fraction l of a step g. */
  function Step(x: real, l: real, g: real): real { x + l*g }

  /** The fraction l of a step g at which the unit interval is left; 1 when it
      is not left. */
  lemma ExitStep(x: real, g: real) returns (l: real)
    requires InUnit(x)
    ensures InUnit(l) && InUnit(Step(x, l, g))
    ensures x + g < 0.0 ==> Step(x, l, g) == 0.0
    ensures x + g > 1.0 ==> Step(x, l, g) == 1.0
  {
    if x + g < 0.0 {
      l := UnitQuotient(x, -g);
    } else if x + g > 1.0 {
      l := UnitQuotient(1.0 - x, g);
    } else {
      l := 1.0;
    }
  }

  lemma ShorterStepStaysInside(x: real, g: real, l: real, far: real)
    requires 0.0 <= l <= far && InUnit(x) && InUnit(Step(x, far, g))
    ensures InUnit(Step(x, l, g))
  {
    if g >= 0.0 {
      assert l*g >= 0.0 && (far - l)*g >= 0.0;
      assert l*g <= far*g;
    } else {
      assert l*g <= 0.0 && (far - l)*g <= 0.0;
      assert l*g >= far*g;
    }
  }

  /** Walking from a point of the square to a target outside it, the square is
      left through an edge the target is beyond. */
  lemma ExitPoint(s: real, t: real, x: real, y: real) returns (l: real)
    requires InSquare(s, t) && !InSquare(s + x, t + y)
    ensures InUnit(l)
    ensures OnViolatedEdge(Step(s, l, x), Step(t, l, y), s + x, t + y)
  {
    var l1 := ExitStep(s, x);
    var l2 := ExitStep(t, y);
    FullStep(s, x);
    FullStep(t, y);
    hide Step;
    if InUnit(s + x) || (!InUnit(t + y) && l2 <= l1) {
      l := l2;
      if InUnit(s + x) {
        ShorterStepStaysInside(s, x, l2, 1.0);
      } else {
        ShorterStepStaysInside(s, x, l2, l1);
      }
    } else {
      l := l1;
      if InUnit(t + y) {
        ShorterStepStaysInside(t, y, l1, 1.0);
      } else {
        ShorterStepStaysInside(t, y, l1, l2);
      }
    }
  }

  lemma FullStep(x: real, g: real)
    ensures Step(x, 1.0, g) == x + g
  {
  }

  lemma TaylorScalar(a: real, b: real, c: real, d: real, e: real, f: real,
                     s: real, t: real, x: real, y: real, l: real)
    ensures a*(s + l*x)*(s + l*x) - 2.0*b*(s + l*x)*(t + l*y) + c*(t + l*y)*(t + l*y)
            + 2.0*d*(s + l*x) - 2.0*e*(t + l*y) + f
            == (a*s*s - 2.0*b*s*t + c*t*t + 2.0*d*s - 2.0*e*t + f)
               + l*(2.0*(a*s*x - b*(s*y + t*x) + c*t*y + d*x - e*y))
               + l*l*(a*x*x - 2.0*b*x*y + c*y*y)
  {
  }

  /** The exact second-order expansion of the form along a line. */
  lemma Taylor(q: Quad, s: real, t: real, x: real, y: real, l: real)
    ensures q.At(s + l*x, t + l*y) == q.At(s, t) + l*q.Slope(s, t, x, y) + l*l*q.Form(x, y)
  {
    TaylorScalar(q.a, q.b, q.c, q.d, q.e, q.f, s, t, x, y, l);
  }

  lemma DownhillScalar(l: real, slope: real, form: real)
    requires 0.0 <= l <= 1.0 && form >= 0.0 && slope + form <= 0.0
    ensures l*slope + l*l*form <= 0.0
  {
    ProductNonNegative(l, -(slope + form));
    var k := l*(1.0 - l);
    ProductNonNegative(l, 1.0 - l);
    ProductNonNegative(k, form);
    assert l*slope + l*l*form == l*(slope + form) - k*form;
  }

  /** From any point of the square one can reach, without climbing, an edge that
      a given no-higher outside point is beyond. */
  lemma SlideToEdge(q: Quad, s: real, t: real, r0: real, s0: real) returns (s': real, t': real)
    requires InSquare(s, t) && !InSquare(r0, s0)
    requires q.Form(r0 - s, s0 - t) >= 0.0
    requires q.At(r0, s0) <= q.At(s, t)
    ensures OnViolatedEdge(s', t', r0, s0)
    ensures q.At(s', t') <= q.At(s, t)
  {
    hide Quad.At, Quad.Form, Quad.Slope;
    var x, y := r0 - s, s0 - t;
    var l := ExitPoint(s, t, x, y);
    Taylor(q, s, t, x, y, 1.0);
    assert s + 1.0*x == r0 && t + 1.0*y == s0;
    Taylor(q, s, t, x, y, l);
    DownhillScalar(l, q.Slope(s, t, x, y), q.Form(x, y));
    s', t' := s + l*x, t + l*y;
  }

  lemma FormNonNegative(q: Quad, x: real, y: real)
    requires q.a > 0.0 && q.a*q.c - q.b*q.b >= 0.0
    ensures q.Form(x, y) >= 0.0
  {
    FormScalar(q.a, q.b, q.c, x, y);
  }

  lemma FormScalar(a: real, b: real, c: real, x: real, y: real)
    requires a > 0.0 && a*c - b*b >= 0.0
    ensures a*x*x - 2.0*b*x*y + c*y*y >= 0.0
  {
    var D, F := a*c - b*b, a*x*x - 2.0*b*x*y + c*y*y;
    assert a*F == (a*x - b*y)*(a*x - b*y) + D*(y*y);
    assert (a*x - b*y)*(a*x - b*y) >= 0.0;
    assert y*y >= 0.0;
    assert D*(y*y) >= 0.0;
  }

  /** A stationary point of the form is its global minimum. */
  lemma StationaryIsMinimum(q: Quad, r0: real, s0: real, s: real, t: real)
    requires q.a > 0.0 && q.a*q.c - q.b*q.b >= 0.0
    requires q.a*r0 - q.b*s0 + q.d == 0.0
    requires q.c*s0 - q.b*r0 - q.e == 0.0
    ensures q.At(r0, s0) <= q.At(s, t)
  {
    hide Quad.At, Quad.Form;
    var x, y := s - r0, t - s0;
    FormNonNegative(q, x, y);
    Taylor(q, r0, s0, x, y, 1.0);
    assert r0 + 1.0*x == s && s0 + 1.0*y == t;
    SlopeScalar(q.a, q.b, q.c, q.d, q.e, r0, s0, x, y);
  }

  lemma SlopeScalar(a: real, b: real, c: real, d: real, e: real, r0: real, s0: real, x: real, y: real)
    requires a*r0 - b*s0 + d == 0.0
    requires c*s0 - b*r0 - e == 0.0
    ensures 2.0*(a*r0*x - b*(r0*y + s0*x) + c*s0*y + d*x - e*y) == 0.0
  {
    assert x*(a*r0 - b*s0 + d) + y*(c*s0 - b*r0 - e)
           == a*r0*x - b*(r0*y + s0*x) + c*s0*y + d*x - e*y;
  }

  /** The first-order conditions for (s,t) to minimise the form over the square. */
  predicate Stationary(q: Quad, s: real, t: real) {
    var gs, gt := q.a*s - q.b*t + q.d, q.c*t - q.b*s - q.e;
    && (s < 1.0 ==> gs >= 0.0) && (s > 0.0 ==> gs <= 0.0)
    && (t < 1.0 ==> gt >= 0.0) && (t > 0.0 ==> gt <= 0.0)
  }

  lemma SlopeIsGradient(q: Quad, s: real, t: real, x: real, y: real)
    ensures q.Slope(s, t, x, y) == 2.0*((q.a*s - q.b*t + q.d)*x + (q.c*t - q.b*s - q.e)*y)
  {
    GradientScalar(q.a, q.b, q.c, q.d, q.e, s, t, x, y);
  }

  lemma GradientScalar(a: real, b: real, c: real, d: real, e: real, s: real, t: real, x: real, y: real)
    ensures 2.0*(a*s*x - b*(s*y + t*x) + c*t*y + d*x - e*y) == 2.0*((a*s - b*t + d)*x + (c*t - b*s - e)*y)
  {
  }

  lemma FeasibleUphill(g: real, p: real, p': real)
    requires InUnit(p) && InUnit(p')
    requires (p < 1.0 ==> g >= 0.0) && (p > 0.0 ==> g <= 0.0)
    ensures g*(p' - p) >= 0.0
  {
    if p' > p {
      ProductNonNegative(g, p' - p);
    } else if p' < p {
      ProductNonNegative(-g, p - p');
      assert g*(p' - p) == (-g)*(p - p');
    }
  }

  lemma StationarySuffices(q: Quad, s': real, t': real, s: real, t: real)
    requires q.a > 0.0 && q.a*q.c - q.b*q.b >= 0.0
    requires InSquare(s', t') && InSquare(s, t) && Stationary(q, s', t')
    ensures q.At(s', t') <= q.At(s, t)
  {
    hide Quad.At, Quad.Form, Quad.Slope;
    var x, y := s - s', t - t';
    Taylor(q, s', t', x, y, 1.0);
    assert s' + 1.0*x == s && t' + 1.0*y == t;
    FormNonNegative(q, x, y);
    SlopeIsGradient(q, s', t', x, y);
    FeasibleUphill(q.a*s' - q.b*t' + q.d, s', s);
    FeasibleUphill(q.c*t' - q.b*s' - q.e, t', t);
  }

  /** A short enough step against a gradient g, where the curvature is k, descends. */
  lemma ShortStep(g: real, k: real, p: real) returns (h: real)
    requires k > 0.0 && InUnit(p)
    requires (p < 1.0 && g < 0.0) || (p > 0.0 && g > 0.0)
    ensures InUnit(p + h) && 2.0*(g*h) + h*h*k < 0.0
  {
    var room, m := if g < 0.0 then 1.0 - p else p, if g < 0.0 then -g else g;
    var far := m / k;
    assert far*k == m;
    assert far > 0.0;
    var l := if far < room then far else room;
    var x := ProductPositive(l, m);
    ProductNonNegative(l, (far - l)*k);
    assert (far - l)*k == m - l*k;
    assert l*(m - l*k) == x - l*l*k;
    h := if g < 0.0 then l else -l;
    assert g*h == -x && h*h == l*l;
  }

  lemma Descends(q: Quad, s: real, t: real, x: real, y: real)
    requires 2.0*((q.a*s - q.b*t + q.d)*x + (q.c*t - q.b*s - q.e)*y) + q.Form(x, y) < 0.0
    ensures q.At(s + x, t + y) < q.At(s, t)
  {
    hide Quad.At, Quad.Slope, Quad.Form;
    Taylor(q, s, t, x, y, 1.0);
    SlopeIsGradient(q, s, t, x, y);
    assert s + 1.0*x == s + x && t + 1.0*y == t + y;
  }

  lemma DescendsInS(q: Quad, s: real, t: real, x: real)
    requires 2.0*((q.a*s - q.b*t + q.d)*x) + x*x*q.a < 0.0
    ensures q.At(s + x, t) < q.At(s, t)
  {
    hide Quad.At;
    assert q.Form(x, 0.0) == x*x*q.a;
    Descends(q, s, t, x, 0.0);
  }

  lemma DescendsInT(q: Quad, s: real, t: real, y: real)
    requires 2.0*((q.c*t - q.b*s - q.e)*y) + y*y*q.c < 0.0
    ensures q.At(s, t + y) < q.At(s, t)
  {
    hide Quad.At;
    assert q.Form(0.0, y) == y*y*q.c;
    Descends(q, s, t, 0.0, y);
  }

  lemma StationaryNecessary(q: Quad, s: real, t: real) returns (s': real, t': real)
    requires q.a > 0.0 && q.c > 0.0 && InSquare(s, t) && !Stationary(q, s, t)
    ensures InSquare(s', t') && q.At(s', t') < q.At(s, t)
  {
    hide Quad.At;
    var gs, gt := q.a*s - q.b*t + q.d, q.c*t - q.b*s - q.e;
    if (s < 1.0 && gs < 0.0) || (s > 0.0 && gs > 0.0) {
      var x := ShortStep(gs, q.a, s);
      DescendsInS(q, s, t, x);
      s', t' := s + x, t;
    } else {
      var y := ShortStep(gt, q.c, t);
      DescendsInT(q, s, t, y);
      s', t' := s, t + y;
    }
  }
}
