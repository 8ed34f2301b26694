/** The two-dimensional distance engine of src/measures.c.

    The source keeps a distance; the model keeps its square, so a comparison of
    distances becomes the same comparison of squares.  The source's start value
    for a maximum search is a negative distance, here a negative square. */
module Measures {
  import opened Convex
  import opened Planar
  import opened Sorting

  /** What the accumulator has recorded: the square of the distance and the pair. */
  datatype Record = Record(d2: real, p1: Point2D, p2: Point2D)

  /** No pair of points from X and Y would replace the recorded square. */
  ghost predicate NoneBeats(mode: int, d2: real, X: iset<Point2D>, Y: iset<Point2D>) {
    forall p, q :: p in X && q in Y ==> !Beats(mode, Dist2(p, q), d2)
  }

  /** p1 belongs to X and p2 to Y, or the other way round when twisted. */
  ghost predicate Oriented(twisted: int, r: Record, X: iset<Point2D>, Y: iset<Point2D>) {
    if twisted > 0 then r.p1 in X && r.p2 in Y else r.p1 in Y && r.p2 in X
  }

  /** Either nothing was recorded, or something better was, or a point both have: a pair of
      points of X and Y, in the order the caller asked for, at exactly the recorded
      distance. */
  ghost predicate Advanced(mode: int, twisted: int, before: Record, after: Record,
                           X: iset<Point2D>, Y: iset<Point2D>) {
    || after == before
    || (&& (Beats(mode, after.d2, before.d2) || (mode == DIST_MIN && after.d2 == 0.0 <= before.d2))
        && Oriented(twisted, after, X, Y)
        && Dist2(after.p1, after.p2) == after.d2)
  }

  lemma AdvancedNowhere(mode: int, twisted: int, r: Record, X: iset<Point2D>, Y: iset<Point2D>)
    ensures Advanced(mode, twisted, r, r, X, Y)
  {
  }

  lemma Grows(mode: int, twisted: int, before: Record, after: Record, X: iset<Point2D>, Y: iset<Point2D>)
    requires Advanced(mode, twisted, before, after, X, Y)
    ensures !Beats(mode, before.d2, after.d2)
  {
  }

  lemma AdvancedToZero(twisted: int, before: Record, p: Point2D, X: iset<Point2D>, Y: iset<Point2D>)
    requires before.d2 >= 0.0 && p in X && p in Y
    ensures Advanced(DIST_MIN, twisted, before, Record(0.0, p, p), X, Y)
  {
    Dist2Zero(p);
  }

  lemma NothingBelowZero(X: iset<Point2D>, Y: iset<Point2D>)
    ensures NoneBeats(DIST_MIN, 0.0, X, Y)
  {
    forall p, q | p in X && q in Y
      ensures 0.0 <= Dist2(p, q)
    {
      Dist2Symmetric(p, q);
    }
  }

  lemma NoneBeatsPair(d2: real, p: Point2D, q: Point2D)
    requires NoneBeats(DIST_MAX, d2, iset{p}, iset{q})
    ensures Dist2(p, q) <= d2
  {
    assert p in iset{p} && q in iset{q};
  }

  lemma VertexSetInPath(l: seq<Point2D>, i: nat)
    requires i < |l|
    ensures iset{l[i]} <= Path(l)
  {
    VertexInPath(l, i);
  }

  lemma AdvancedWider(mode: int, twisted: int, before: Record, mid: Record, after: Record,
                      X: iset<Point2D>, Y: iset<Point2D>, X': iset<Point2D>, Y': iset<Point2D>)
    requires Advanced(mode, twisted, before, mid, X, Y)
    requires Advanced(mode, twisted, mid, after, X', Y') && X' <= X && Y' <= Y
    ensures Advanced(mode, twisted, before, after, X, Y)
  {
  }

  lemma AdvancedFlip(mode: int, twisted: int, before: Record, after: Record,
                     X: iset<Point2D>, Y: iset<Point2D>)
    requires twisted != 0 && Advanced(mode, -twisted, before, after, Y, X)
    ensures Advanced(mode, twisted, before, after, X, Y)
  {
  }

  lemma NoneBeatsFlip(mode: int, d2: real, X: iset<Point2D>, Y: iset<Point2D>)
    requires NoneBeats(mode, d2, Y, X)
    ensures NoneBeats(mode, d2, X, Y)
  {
    forall p, q | p in X && q in Y
      ensures !Beats(mode, Dist2(p, q), d2)
    {
      Dist2Symmetric(p, q);
    }
  }

  /** Segments that cannot cross: parallel, or with solved parameters out of range. */
  ghost predicate Apart(A: Point2D, B: Point2D, C: Point2D, D: Point2D) {
    Cross(A, B, C, D) == 0.0
    || exists r, s :: Lerp(A, B, r) == Lerp(C, D, s) && !InSquare(r, s)
  }

  /** The four end points settle the minimum of two segments that cannot cross. */
  lemma EndsSettleMinimum(A: Point2D, B: Point2D, C: Point2D, D: Point2D, d2: real)
    requires A != B && C != D && Apart(A, B, C, D)
    requires NoneBeats(DIST_MIN, d2, iset{A, B}, Seg(C, D))
    requires NoneBeats(DIST_MIN, d2, iset{C, D}, Seg(A, B))
    ensures NoneBeats(DIST_MIN, d2, Seg(A, B), Seg(C, D))
  {
    forall p, q | p in Seg(A, B) && q in Seg(C, D)
      ensures d2 <= Dist2(p, q)
    {
      var s :| InUnit(s) && p == Lerp(A, B, s);
      var t :| InUnit(t) && q == Lerp(C, D, t);
      var r0, s0 := TargetOutside(A, B, C, D, s, t);
      SegFormNonNegative(A, B, C, D, r0 - s, s0 - t);
      var s', t' := SlideToEdge(SegQuad(A, B, C, D), s, t, r0, s0);
      SegQuadIsDistance(A, B, C, D, s, t);
      SegQuadIsDistance(A, B, C, D, s', t');
      EndsOnSegment(A, B);
      EndsOnSegment(C, D);
      OnSegment(A, B, s');
      OnSegment(C, D, t');
      Dist2Symmetric(Lerp(A, B, s'), Lerp(C, D, t'));
    }
  }

  lemma TargetOutside(A: Point2D, B: Point2D, C: Point2D, D: Point2D, s: real, t: real) returns (r0: real, s0: real)
    requires A != B && Apart(A, B, C, D) && InSquare(s, t)
    ensures !InSquare(r0, s0)
    ensures SegQuad(A, B, C, D).At(r0, s0) <= SegQuad(A, B, C, D).At(s, t)
  {
    hide Quad.At, SegQuad, Dist2;
    if Cross(A, B, C, D) == 0.0 {
      var k := ParallelShift(A, B, C, D, s, t);
      r0, s0 := s + 2.0*k, t + 2.0;
    } else {
      r0, s0 :| Lerp(A, B, r0) == Lerp(C, D, s0) && !InSquare(r0, s0);
      SegQuadIsDistance(A, B, C, D, s, t);
      SegQuadIsDistance(A, B, C, D, r0, s0);
      Dist2Zero(Lerp(C, D, s0));
      Dist2Symmetric(Lerp(A, B, s), Lerp(C, D, t));
    }
  }

  /** The farthest pair of two segments is a pair of end points. */
  lemma EndsSettleMaximum(A: Point2D, B: Point2D, C: Point2D, D: Point2D, d2: real)
    requires NoneBeats(DIST_MAX, d2, iset{A, B}, Seg(C, D))
    ensures NoneBeats(DIST_MAX, d2, Seg(A, B), Seg(C, D))
  {
    hide Dist2, Dot, Length2;
    forall p, q | p in Seg(A, B) && q in Seg(C, D)
      ensures Dist2(p, q) <= d2
    {
      Dist2Symmetric(p, q);
      Dist2Symmetric(A, q);
      Dist2Symmetric(B, q);
      if A == B {
        DegenerateSegment(A);
      } else {
        var r := Projection(q, A, B);
        FarthestOnSegment(q, A, B, r, p);
      }
    }
  }

  lemma EndsSettle(A: Point2D, B: Point2D, C: Point2D, D: Point2D, mode: int, d2: real)
    requires A != B && C != D && (mode == DIST_MAX || (mode == DIST_MIN && Apart(A, B, C, D)))
    requires NoneBeats(mode, d2, iset{A, B}, Seg(C, D))
    requires NoneBeats(mode, d2, iset{C, D}, Seg(A, B))
    ensures NoneBeats(mode, d2, Seg(A, B), Seg(C, D))
  {
    if mode == DIST_MAX {
      EndsSettleMaximum(A, B, C, D, d2);
    } else {
      EndsSettleMinimum(A, B, C, D, d2);
    }
  }

  // ---- Whole polylines ----

  lemma NoneBeatsKeeps(mode: int, d2: real, d2': real, X: iset<Point2D>, Y: iset<Point2D>)
    requires NoneBeats(mode, d2, X, Y) && !Beats(mode, d2, d2')
    ensures NoneBeats(mode, d2', X, Y)
  {
  }

  /** Every edge of l1 before the n-th has met every edge of l2, and the n-th one
      the first m of them. */
  ghost predicate EdgesDone(mode: int, d2: real, l1: seq<Point2D>, l2: seq<Point2D>, n: nat, m: nat) {
    forall i: nat, j: nat :: i + 1 < |l1| && j + 1 < |l2| && (i < n || (i == n && j < m))
      ==> NoneBeats(mode, d2, Edge(l1, i), Edge(l2, j))
  }

  lemma EdgesDoneKeeps(mode: int, d2: real, d2': real, l1: seq<Point2D>, l2: seq<Point2D>, n: nat, m: nat)
    requires EdgesDone(mode, d2, l1, l2, n, m) && !Beats(mode, d2, d2')
    ensures EdgesDone(mode, d2', l1, l2, n, m)
  {
    forall i: nat, j: nat | i + 1 < |l1| && j + 1 < |l2| && (i < n || (i == n && j < m))
      ensures NoneBeats(mode, d2', Edge(l1, i), Edge(l2, j))
    {
      NoneBeatsKeeps(mode, d2, d2', Edge(l1, i), Edge(l2, j));
    }
  }

  lemma NoEdgesDone(mode: int, d2: real, l1: seq<Point2D>, l2: seq<Point2D>)
    ensures EdgesDone(mode, d2, l1, l2, 0, 0)
  {
  }

  lemma EdgeDone(mode: int, d2: real, l1: seq<Point2D>, l2: seq<Point2D>, n: nat, m: nat)
    requires n + 1 < |l1| && m + 1 < |l2| && EdgesDone(mode, d2, l1, l2, n, m)
    requires NoneBeats(mode, d2, Edge(l1, n), Edge(l2, m))
    ensures EdgesDone(mode, d2, l1, l2, n, m + 1)
  {
    hide NoneBeats;
  }

  lemma RowDone(mode: int, d2: real, l1: seq<Point2D>, l2: seq<Point2D>, n: nat)
    requires |l2| > 0 && EdgesDone(mode, d2, l1, l2, n, |l2| - 1)
    ensures EdgesDone(mode, d2, l1, l2, n + 1, 0)
  {
    hide NoneBeats;
  }

  lemma EdgesDonePaths(mode: int, d2: real, l1: seq<Point2D>, l2: seq<Point2D>)
    requires |l1| >= 2 && |l2| >= 2 && EdgesDone(mode, d2, l1, l2, |l1| - 1, 0)
    ensures NoneBeats(mode, d2, Path(l1), Path(l2))
  {
    hide Dist2;
    forall p, q | p in Path(l1) && q in Path(l2)
      ensures !Beats(mode, Dist2(p, q), d2)
    {
      var i, i' := EdgeOf(p, l1);
      var j, j' := EdgeOf(q, l2);
      assert NoneBeats(mode, d2, Edge(l1, i), Edge(l2, j));
    }
  }

  /** The farthest points of two polylines are vertices. */
  lemma VerticesSettleMaximum(d2: real, l1: seq<Point2D>, l2: seq<Point2D>)
    requires |l1| > 0 && |l2| > 0
    requires forall i, j :: 0 <= i < |l1| && 0 <= j < |l2| ==> Dist2(l1[i], l2[j]) <= d2
    ensures NoneBeats(DIST_MAX, d2, Path(l1), Path(l2))
  {
    hide Dist2;
    forall p, q | p in Path(l1) && q in Path(l2)
      ensures Dist2(p, q) <= d2
    {
      var i, i' := EdgeOf(p, l1);
      var j, j' := EdgeOf(q, l2);
      var A, B, C, D := l1[i], l1[i'], l2[j], l2[j'];
      DegenerateSegment(A);
      DegenerateSegment(B);
      Dist2Symmetric(A, C);
      Dist2Symmetric(A, D);
      Dist2Symmetric(B, C);
      Dist2Symmetric(B, D);
      EndsSettleMaximum(C, D, A, A, d2);
      EndsSettleMaximum(C, D, B, B, d2);
      NoneBeatsFlip(DIST_MAX, d2, Seg(A, A), Seg(C, D));
      NoneBeatsFlip(DIST_MAX, d2, Seg(B, B), Seg(C, D));
      EndsSettleMaximum(A, B, C, D, d2);
    }
  }

  // ---- The fast path: vertices ordered by a measure across the gap ----

  datatype ListStruct = ListStruct(themeasure: real, pnr: int)

  function TheMeasure(e: ListStruct): real { e.themeasure }

  /** Where the perpendicular through p crosses the axis: the Y axis when the boxes
      lie north and south of each other, the X axis otherwise. */
  function Measure(north: bool, k: real, p: Point2D): real {
    if north then p.y - k*p.x else p.x - k*p.y
  }

  /** "gap >= sqrt(m2)" and "gap > sqrt(m2)" for a non-negative m2. */
  predicate AtLeastRoot(gap: real, m2: real) { gap >= 0.0 && gap*gap >= m2 }

  predicate AboveRoot(gap: real, m2: real) { gap > 0.0 && gap*gap > m2 }

  /** The vertex next to j in direction r; at an end, the matching other end of a
      closed line, or j itself. */
  function Neighbour(l: seq<Point2D>, j: int, r: int): (n: int)
    requires 0 <= j < |l| && (r == 1 || r == -1)
    ensures 0 <= n < |l|
  {
    if j + r < 0 then
      if l[j] == l[|l| - 1] then |l| - 1 else j
    else if j + r > |l| - 1 then
      if l[j] == l[0] then 0 else j
    else j + r
  }

  lemma NeighbourEdgeInPath(l: seq<Point2D>, j: int, r: int)
    requires 0 <= j < |l| && (r == 1 || r == -1)
    ensures Seg(l[j], l[Neighbour(l, j, r)]) <= Path(l)
  {
    var n := Neighbour(l, j, r);
    if n == j + 1 {
      EdgeInPath(l, j);
    } else if n == j - 1 {
      EdgeInPath(l, n);
      SegReverse(l[n], l[j]);
    } else {
      DegenerateSegment(l[j]);
      VertexInPath(l, j);
    }
  }

  lemma MeasureScalar(x: real, y: real, k: real)
    ensures (y - k*x)*(y - k*x) + (x + k*y)*(x + k*y) == (1.0 + k*k)*(x*x + y*y)
  {
  }

  /** Cauchy-Schwarz: measures differ by at most sqrt(1 + k^2) times the distance. */
  lemma MeasureGap(north: bool, k: real, p: Point2D, q: Point2D)
    ensures var g := Measure(north, k, q) - Measure(north, k, p);
            g*g <= (1.0 + k*k)*Dist2(p, q)
  {
    hide Dist2, Measure;
    MeasureDifference(north, k, p, q);
    var x, y := q.x - p.x, q.y - p.y;
    Dist2Is(p, q, x, y);
    if north {
      GapScalar(x, y, k, Measure(north, k, q) - Measure(north, k, p), Dist2(p, q));
    } else {
      GapScalar(y, x, k, Measure(north, k, q) - Measure(north, k, p), Dist2(p, q));
    }
  }

  lemma Dist2Is(p: Point2D, q: Point2D, x: real, y: real)
    requires x == q.x - p.x && y == q.y - p.y
    ensures Dist2(p, q) == x*x + y*y
  {
  }

  lemma MeasureDifference(north: bool, k: real, p: Point2D, q: Point2D)
    ensures Measure(north, k, q) - Measure(north, k, p)
            == if north then (q.y - p.y) - k*(q.x - p.x) else (q.x - p.x) - k*(q.y - p.y)
  {
  }

  lemma GapScalar(x: real, y: real, k: real, g: real, d: real)
    requires g == y - k*x && d == x*x + y*y
    ensures g*g <= (1.0 + k*k)*d
  {
    MeasureScalar(x, y, k);
    var z := SquareNonNegative(x + k*y);
  }

  lemma MeasureOnSegment(north: bool, k: real, p: Point2D, A: Point2D, B: Point2D)
    requires p in Seg(A, B)
    ensures Measure(north, k, A) <= Measure(north, k, B)
            ==> Measure(north, k, A) <= Measure(north, k, p) <= Measure(north, k, B)
    ensures Measure(north, k, B) <= Measure(north, k, A)
            ==> Measure(north, k, B) <= Measure(north, k, p) <= Measure(north, k, A)
  {
    hide Measure, Lerp;
    var t :| InUnit(t) && p == Lerp(A, B, t);
    MeasureAlong(north, k, A, B, t);
    var m, n := Measure(north, k, A), Measure(north, k, B);
    BetweenBoth(m, n, n - m, t, Measure(north, k, p));
  }

  lemma BetweenBoth(m: real, n: real, d: real, t: real, x: real)
    requires InUnit(t) && d == n - m && x == m + t*d
    ensures (m <= n ==> m <= x <= n) && (n <= m ==> n <= x <= m)
  {
    if d >= 0.0 {
      ProductNonNegative(t, d);
      ProductNonNegative(1.0 - t, d);
    } else {
      ProductNonNegative(t, -d);
      ProductNonNegative(1.0 - t, -d);
    }
  }

  lemma MeasureAlong(north: bool, k: real, A: Point2D, B: Point2D, t: real)
    ensures var (m, n) := (Measure(north, k, A), Measure(north, k, B));
            Measure(north, k, Lerp(A, B, t)) == m + t*(n - m)
  {
  }

  lemma AtLeastRootGrows(gap: real, wider: real, m2: real)
    requires AtLeastRoot(gap, m2) && gap <= wider
    ensures AtLeastRoot(wider, m2)
  {
    SquareMonotone(gap, wider);
  }

  /** A wide enough measure gap rules a pair of points out. */
  lemma WideGapIsFar(north: bool, k: real, p: Point2D, q: Point2D, d2: real)
    requires AtLeastRoot(Measure(north, k, q) - Measure(north, k, p), d2 + d2*k*k)
    ensures d2 <= Dist2(p, q)
  {
    hide Dist2, Measure;
    MeasureGap(north, k, p, q);
    var z := SquareNonNegative(k);
    var d := Dist2(p, q);
    assert (1.0 + k*k)*d2 == d2 + d2*k*k;
    assert (1.0 + z)*(d2 - d) == (1.0 + z)*d2 - (1.0 + z)*d;
    if d < d2 {
      var y := ProductPositive(1.0 + z, d2 - d);
    }
  }

  /** Vertices i and j are settled in direction r of l1: either they are too far
      apart in measure, or the edges at them have been compared. */
  ghost predicate Settled(d2: real, north: bool, k: real, l1: seq<Point2D>, l2: seq<Point2D>,
                          i: int, r: int, j: int)
    requires 0 <= i < |l1| && 0 <= j < |l2| && (r == 1 || r == -1)
  {
    || AtLeastRoot(Measure(north, k, l2[j]) - Measure(north, k, l1[i]), d2 + d2*k*k)
    || (&& NoneBeats(DIST_MIN, d2, Seg(l1[i], l1[Neighbour(l1, i, r)]), Seg(l2[j], l2[Neighbour(l2, j, -1)]))
        && NoneBeats(DIST_MIN, d2, Seg(l1[i], l1[Neighbour(l1, i, r)]), Seg(l2[j], l2[Neighbour(l2, j, 1)])))
  }

  lemma SettledKeeps(d2: real, d2': real, north: bool, k: real, l1: seq<Point2D>, l2: seq<Point2D>,
                     i: int, r: int, j: int)
    requires 0 <= i < |l1| && 0 <= j < |l2| && (r == 1 || r == -1)
    requires Settled(d2, north, k, l1, l2, i, r, j) && d2' <= d2
    ensures Settled(d2', north, k, l1, l2, i, r, j)
  {
    hide Dist2, Measure, AtLeastRoot;
    LowerRoot(Measure(north, k, l2[j]) - Measure(north, k, l1[i]), d2, d2', k);
  }

  lemma LowerRoot(gap: real, d2: real, d2': real, k: real)
    requires d2' <= d2
    ensures AtLeastRoot(gap, d2 + d2*k*k) ==> AtLeastRoot(gap, d2' + d2'*k*k)
  {
    var z := SquareNonNegative(k);
    ScaledSum(d2, k, z);
    ScaledSum(d2', k, z);
    ProductNonNegative(1.0 + z, d2 - d2');
    assert (1.0 + z)*(d2 - d2') == (1.0 + z)*d2 - (1.0 + z)*d2';
  }

  lemma ScaledSum(d: real, k: real, z: real)
    requires z == k*k
    ensures d + d*k*k == (1.0 + z)*d
  {
  }

  /** The pruned search misses nothing: with every pair of vertices settled, no pair
      of points of the two lines is nearer than what was found. */
  lemma SettledEverywhere(d2: real, north: bool, k: real, l1: seq<Point2D>, l2: seq<Point2D>)
    requires |l1| > 0 && |l2| > 0
    requires forall i, j :: 0 <= i < |l1| && 0 <= j < |l2|
               ==> Settled(d2, north, k, l1, l2, i, -1, j) && Settled(d2, north, k, l1, l2, i, 1, j)
    ensures NoneBeats(DIST_MIN, d2, Path(l1), Path(l2))
  {
    hide Dist2, Measure, AtLeastRoot;
    forall p, q | p in Path(l1) && q in Path(l2)
      ensures d2 <= Dist2(p, q)
    {
      var i, i' := EdgeOf(p, l1);
      var j, j' := EdgeOf(q, l2);
      SegReverse(l1[i], l1[i']);
      SegReverse(l2[j], l2[j']);
      var a, r := if Measure(north, k, l1[i]) >= Measure(north, k, l1[i']) then i else i',
                  if Measure(north, k, l1[i]) >= Measure(north, k, l1[i']) then 1 else -1;
      var b := if Measure(north, k, l2[j]) <= Measure(north, k, l2[j']) then j else j';
      assert Settled(d2, north, k, l1, l2, a, r, b);
      if AtLeastRoot(Measure(north, k, l2[b]) - Measure(north, k, l1[a]), d2 + d2*k*k) {
        MeasureOnSegment(north, k, p, l1[i], l1[i']);
        MeasureOnSegment(north, k, q, l2[j], l2[j']);
        AtLeastRootGrows(Measure(north, k, l2[b]) - Measure(north, k, l1[a]),
                         Measure(north, k, q) - Measure(north, k, p), d2 + d2*k*k);
        WideGapIsFar(north, k, p, q, d2);
      }
    }
  }

  /** Segments without a common point pass the crossing test of SegSeg. */
  lemma DisjointApart(A: Point2D, B: Point2D, C: Point2D, D: Point2D)
    requires Seg(A, B) !! Seg(C, D)
    ensures Apart(A, B, C, D)
  {
    var bot := Cross(A, B, C, D);
    if bot != 0.0 {
      var rTop := (A.y - C.y)*(D.x - C.x) - (A.x - C.x)*(D.y - C.y);
      var sTop := (A.y - C.y)*(B.x - A.x) - (A.x - C.x)*(B.y - A.y);
      var r, s := rTop / bot, sTop / bot;
      LinesMeet(A, B, C, D, rTop, sTop, bot);
      if InSquare(r, s) {
        OnSegment(A, B, r);
        OnSegment(C, D, s);
        assert false;
      }
    }
  }

  /** Lines in boxes that do not overlap have no common point. */
  lemma BoxesSeparate(l1: seq<Point2D>, l2: seq<Point2D>, g1: GBox, g2: GBox)
    requires |l1| > 0 && |l2| > 0 && Bounds(g1, l1) && Bounds(g2, l2) && !Overlaps2d(g1, g2)
    ensures Path(l1) !! Path(l2)
  {
    forall p | p in Path(l1) && p in Path(l2)
      ensures false
    {
      var i, i' := EdgeOf(p, l1);
      var j, j' := EdgeOf(p, l2);
      SegmentInBox(p, l1[i], l1[i'], g1);
      SegmentInBox(p, l2[j], l2[j'], g2);
    }
  }

  lemma NeighboursApart(l1: seq<Point2D>, l2: seq<Point2D>, i: int, r: int, j: int, r': int)
    requires 0 <= i < |l1| && 0 <= j < |l2| && (r == 1 || r == -1) && (r' == 1 || r' == -1)
    requires Path(l1) !! Path(l2)
    ensures Seg(l1[i], l1[Neighbour(l1, i, r)]) <= Path(l1)
    ensures Seg(l2[j], l2[Neighbour(l2, j, r')]) <= Path(l2)
    ensures Apart(l1[i], l1[Neighbour(l1, i, r)], l2[j], l2[Neighbour(l2, j, r')])
  {
    NeighbourEdgeInPath(l1, i, r);
    NeighbourEdgeInPath(l2, j, r');
    DisjointApart(l1[i], l1[Neighbour(l1, i, r)], l2[j], l2[Neighbour(l2, j, r')]);
  }

  /** A list of all vertices of l with their measures. */
  ghost predicate Lists(list: seq<ListStruct>, l: seq<Point2D>, north: bool, k: real) {
    && (forall e :: e in list ==> 0 <= e.pnr < |l| && e.themeasure == Measure(north, k, l[e.pnr]))
    && (forall j :: 0 <= j < |l| ==> ListStruct(Measure(north, k, l[j]), j) in list)
  }

  /** Vertex i, in direction r, is settled against the first u entries of the list. */
  ghost predicate RowSettled(d2: real, north: bool, k: real, l1: seq<Point2D>, l2: seq<Point2D>,
                             i: int, r: int, list2: seq<ListStruct>, u: int)
    requires 0 <= i < |l1| && (r == 1 || r == -1) && 0 <= u <= |list2|
  {
    forall v :: 0 <= v < u ==> 0 <= list2[v].pnr < |l2| && Settled(d2, north, k, l1, l2, i, r, list2[v].pnr)
  }

  /** Every entry of the first list from position n on is settled in both directions. */
  ghost predicate RowsSettled(d2: real, north: bool, k: real, l1: seq<Point2D>, l2: seq<Point2D>,
                              list1: seq<ListStruct>, list2: seq<ListStruct>, n: int)
    requires 0 <= n
  {
    forall i :: n <= i < |list1| ==>
      && 0 <= list1[i].pnr < |l1|
      && RowSettled(d2, north, k, l1, l2, list1[i].pnr, -1, list2, |list2|)
      && RowSettled(d2, north, k, l1, l2, list1[i].pnr, 1, list2, |list2|)
  }

  lemma RowSettledKeeps(d2: real, d2': real, north: bool, k: real, l1: seq<Point2D>, l2: seq<Point2D>,
                        i: int, r: int, list2: seq<ListStruct>, u: int)
    requires 0 <= i < |l1| && (r == 1 || r == -1) && 0 <= u <= |list2|
    requires RowSettled(d2, north, k, l1, l2, i, r, list2, u) && d2' <= d2
    ensures RowSettled(d2', north, k, l1, l2, i, r, list2, u)
  {
    forall v | 0 <= v < u
      ensures Settled(d2', north, k, l1, l2, i, r, list2[v].pnr)
    {
      SettledKeeps(d2, d2', north, k, l1, l2, i, r, list2[v].pnr);
    }
  }

  lemma EmptyRowSettled(d2: real, north: bool, k: real, l1: seq<Point2D>, l2: seq<Point2D>,
                        i: int, r: int, list2: seq<ListStruct>)
    requires 0 <= i < |l1| && (r == 1 || r == -1)
    ensures RowSettled(d2, north, k, l1, l2, i, r, list2, 0)
  {
  }

  /** The two comparisons at entry u settle it. */
  lemma RowExtends(d2: real, north: bool, k: real, l1: seq<Point2D>, l2: seq<Point2D>,
                   i: int, r: int, list2: seq<ListStruct>, u: int)
    requires 0 <= i < |l1| && (r == 1 || r == -1) && 0 <= u < |list2| && 0 <= list2[u].pnr < |l2|
    requires RowSettled(d2, north, k, l1, l2, i, r, list2, u)
    requires var j := list2[u].pnr;
             var e := Seg(l1[i], l1[Neighbour(l1, i, r)]);
             NoneBeats(DIST_MIN, d2, e, Seg(l2[j], l2[Neighbour(l2, j, -1)]))
             && NoneBeats(DIST_MIN, d2, e, Seg(l2[j], l2[Neighbour(l2, j, 1)]))
    ensures RowSettled(d2, north, k, l1, l2, i, r, list2, u + 1)
  {
    assert Settled(d2, north, k, l1, l2, i, r, list2[u].pnr);
  }

  lemma EntryOf(list: seq<ListStruct>, l: seq<Point2D>, north: bool, k: real, i: nat)
    requires i < |list| && Lists(list, l, north, k)
    ensures 0 <= list[i].pnr < |l| && list[i].themeasure == Measure(north, k, l[list[i].pnr])
  {
    hide Measure;
    assert list[i] in list;
  }

  lemma NoRowsYet(d2: real, north: bool, k: real, l1: seq<Point2D>, l2: seq<Point2D>,
                  list1: seq<ListStruct>, list2: seq<ListStruct>)
    ensures RowsSettled(d2, north, k, l1, l2, list1, list2, |list1|)
  {
  }

  lemma NextRowSettled(d2: real, north: bool, k: real, l1: seq<Point2D>, l2: seq<Point2D>,
                       list1: seq<ListStruct>, list2: seq<ListStruct>, n: int)
    requires 0 <= n < |list1| && 0 <= list1[n].pnr < |l1|
    requires RowsSettled(d2, north, k, l1, l2, list1, list2, n + 1)
    requires RowSettled(d2, north, k, l1, l2, list1[n].pnr, -1, list2, |list2|)
    requires RowSettled(d2, north, k, l1, l2, list1[n].pnr, 1, list2, |list2|)
    ensures RowsSettled(d2, north, k, l1, l2, list1, list2, n)
  {
    hide RowSettled;
  }

  lemma AboveIsAtLeast(gap: real, m2: real)
    requires AboveRoot(gap, m2)
    ensures AtLeastRoot(gap, m2)
  {
  }

  lemma RowsSettledKeeps(d2: real, d2': real, north: bool, k: real, l1: seq<Point2D>, l2: seq<Point2D>,
                         list1: seq<ListStruct>, list2: seq<ListStruct>, n: int)
    requires 0 <= n && RowsSettled(d2, north, k, l1, l2, list1, list2, n) && d2' <= d2
    ensures RowsSettled(d2', north, k, l1, l2, list1, list2, n)
  {
    forall i | n <= i < |list1|
      ensures RowSettled(d2', north, k, l1, l2, list1[i].pnr, -1, list2, |list2|)
      ensures RowSettled(d2', north, k, l1, l2, list1[i].pnr, 1, list2, |list2|)
    {
      RowSettledKeeps(d2, d2', north, k, l1, l2, list1[i].pnr, -1, list2, |list2|);
      RowSettledKeeps(d2, d2', north, k, l1, l2, list1[i].pnr, 1, list2, |list2|);
    }
  }

  /** Once entry u is too far from vertex i, so is every later entry. */
  lemma GapSettlesRow(d2: real, north: bool, k: real, l1: seq<Point2D>, l2: seq<Point2D>,
                      i: int, r: int, list2: seq<ListStruct>, u: int)
    requires 0 <= i < |l1| && (r == 1 || r == -1) && 0 <= u < |list2|
    requires Lists(list2, l2, north, k) && Ascending(list2, TheMeasure)
    requires RowSettled(d2, north, k, l1, l2, i, r, list2, u)
    requires AtLeastRoot(list2[u].themeasure - Measure(north, k, l1[i]), d2 + d2*k*k)
    ensures RowSettled(d2, north, k, l1, l2, i, r, list2, |list2|)
  {
    hide Dist2, Measure, AtLeastRoot;
    var z := Measure(north, k, l1[i]);
    forall v | u <= v < |list2|
      ensures 0 <= list2[v].pnr < |l2| && Settled(d2, north, k, l1, l2, i, r, list2[v].pnr)
    {
      assert list2[v] in list2 && TheMeasure(list2[u]) <= TheMeasure(list2[v]);
      AtLeastRootGrows(list2[u].themeasure - z, list2[v].themeasure - z, d2 + d2*k*k);
    }
  }

  lemma GapSettlesEarlierRow(d2: real, north: bool, k: real, l1: seq<Point2D>, l2: seq<Point2D>,
                             list1: seq<ListStruct>, list2: seq<ListStruct>, n: int, i: int)
    requires 0 <= i <= n < |list1| && |list2| > 0
    requires Lists(list1, l1, north, k) && Ascending(list1, TheMeasure)
    requires Lists(list2, l2, north, k) && Ascending(list2, TheMeasure)
    requires AtLeastRoot(list2[0].themeasure - list1[n].themeasure, d2 + d2*k*k)
    ensures 0 <= list1[i].pnr < |l1|
    ensures RowSettled(d2, north, k, l1, l2, list1[i].pnr, -1, list2, |list2|)
    ensures RowSettled(d2, north, k, l1, l2, list1[i].pnr, 1, list2, |list2|)
  {
    assert list1[i] in list1 && (i == n || TheMeasure(list1[i]) <= TheMeasure(list1[n]));
    hide Dist2, Measure, AtLeastRoot, Ascending, Settled;
    AtLeastRootGrows(list2[0].themeasure - list1[n].themeasure,
                     list2[0].themeasure - list1[i].themeasure, d2 + d2*k*k);
    GapSettlesRow(d2, north, k, l1, l2, list1[i].pnr, -1, list2, 0);
    GapSettlesRow(d2, north, k, l1, l2, list1[i].pnr, 1, list2, 0);
  }

  /** Once even the first entry of list2 is too far from entry n of list1, everything
      at or before n is settled. */
  lemma GapSettlesRows(d2: real, north: bool, k: real, l1: seq<Point2D>, l2: seq<Point2D>,
                       list1: seq<ListStruct>, list2: seq<ListStruct>, n: int)
    requires 0 <= n < |list1| && |list2| > 0
    requires Lists(list1, l1, north, k) && Ascending(list1, TheMeasure)
    requires Lists(list2, l2, north, k) && Ascending(list2, TheMeasure)
    requires RowsSettled(d2, north, k, l1, l2, list1, list2, n + 1)
    requires AtLeastRoot(list2[0].themeasure - list1[n].themeasure, d2 + d2*k*k)
    ensures RowsSettled(d2, north, k, l1, l2, list1, list2, 0)
  {
    forall i | 0 <= i <= n
      ensures 0 <= list1[i].pnr < |l1|
      ensures RowSettled(d2, north, k, l1, l2, list1[i].pnr, -1, list2, |list2|)
      ensures RowSettled(d2, north, k, l1, l2, list1[i].pnr, 1, list2, |list2|)
    {
      GapSettlesEarlierRow(d2, north, k, l1, l2, list1, list2, n, i);
    }
  }

  lemma RowsSettleEverything(d2: real, north: bool, k: real, l1: seq<Point2D>, l2: seq<Point2D>,
                             list1: seq<ListStruct>, list2: seq<ListStruct>)
    requires |l1| > 0 && |l2| > 0 && Lists(list1, l1, north, k) && Lists(list2, l2, north, k)
    requires RowsSettled(d2, north, k, l1, l2, list1, list2, 0)
    ensures NoneBeats(DIST_MIN, d2, Path(l1), Path(l2))
  {
    hide Measure, Settled, NoneBeats;
    forall a, b | 0 <= a < |l1| && 0 <= b < |l2|
      ensures Settled(d2, north, k, l1, l2, a, -1, b) && Settled(d2, north, k, l1, l2, a, 1, b)
    {
      var i :| 0 <= i < |list1| && list1[i] == ListStruct(Measure(north, k, l1[a]), a);
      var u :| 0 <= u < |list2| && list2[u] == ListStruct(Measure(north, k, l2[b]), b);
      assert list1[i].pnr == a && list2[u].pnr == b;
    }
    SettledEverywhere(d2, north, k, l1, l2);
  }

  method FillList(l: seq<Point2D>, north: bool, k: real) returns (list: array<ListStruct>)
    ensures fresh(list) && list.Length == |l| && Lists(list[..], l, north, k)
  {
    list := new ListStruct[|l|](_ => ListStruct(0.0, 0));
    var t := 0;
    while t < |l|
      invariant 0 <= t <= |l|
      invariant forall j :: 0 <= j < t ==> list[j] == ListStruct(Measure(north, k, l[j]), j)
    {
      list[t] := ListStruct(Measure(north, k, l[t]), t);
      t := t + 1;
    }
    forall j | 0 <= j < |l|
      ensures ListStruct(Measure(north, k, l[j]), j) in list[..]
    {
      assert list[..][j] == ListStruct(Measure(north, k, l[j]), j);
    }
  }

  method SortList(list: array<ListStruct>, l: seq<Point2D>, north: bool, k: real)
    requires Lists(list[..], l, north, k)
    modifies list
    ensures Lists(list[..], l, north, k) && Ascending(list[..], TheMeasure)
  {
    hide Measure;
    ghost var before := list[..];
    Qsort(list, list.Length, TheMeasure);
    assert list[..list.Length] == list[..] && before == before[..list.Length];
    SameElements(list[..], before);
  }

  lemma SlopeDefined(deltaX: real, deltaY: real)
    requires deltaX != 0.0 || deltaY != 0.0
    ensures if deltaX*deltaX < deltaY*deltaY then deltaY != 0.0 else deltaX != 0.0
  {
    var x := SquareNonNegative(deltaX);
    if deltaX == 0.0 {
      var y := SquarePositive(deltaY);
    }
  }

  /** The DISTPTS accumulator with the methods that take it as their last argument.
      The source's methods all return RT_TRUE; the model drops that result. */
  class DistPts {
    var distance2: real
    var p1: Point2D
    var p2: Point2D
    const mode: int
    var twisted: int
    const tolerance: real

    ghost predicate Valid()
      reads this
    {
      (mode == DIST_MIN || mode == DIST_MAX)
      && (twisted == 1 || twisted == -1)
      && (mode == DIST_MIN ==> distance2 >= 0.0)
    }

    ghost function Rec(): Record
      reads this
    {
      Record(distance2, p1, p2)
    }

    /** "distance <= tolerance" in a minimum search, on squares. */
    predicate Within()
      reads this
    {
      mode == DIST_MIN && tolerance >= 0.0 && distance2 <= tolerance*tolerance
    }

    /** rt_dist2d_distpts_init: a start no pair of points is expected to miss; of the
        distance -FLT_MAX the square is kept with its sign. */
    constructor Init(mode: int)
      requires mode == DIST_MIN || mode == DIST_MAX
      ensures Valid() && this.mode == mode && twisted == -1 && tolerance == 0.0
      ensures Rec() == Record(if mode == DIST_MIN then FLT_MAX*FLT_MAX else -FLT_MAX*FLT_MAX, Point2D(0.0, 0.0), Point2D(0.0, 0.0))
    {
      this.distance2 := if mode == DIST_MIN then FLT_MAX*FLT_MAX else -FLT_MAX*FLT_MAX;
      this.mode, this.twisted, this.tolerance := mode, -1, 0.0;
      this.p1, this.p2 := Point2D(0.0, 0.0), Point2D(0.0, 0.0);
    }

    constructor (start2: real, mode: int, twisted: int, tolerance: real)
      requires mode == DIST_MIN || mode == DIST_MAX
      requires twisted == 1 || twisted == -1
      requires mode == DIST_MIN ==> start2 >= 0.0
      ensures Valid() && Rec() == Record(start2, Point2D(0.0, 0.0), Point2D(0.0, 0.0)) && this.mode == mode
      ensures this.twisted == twisted && this.tolerance == tolerance
    {
      this.distance2, this.mode, this.twisted, this.tolerance := start2, mode, twisted, tolerance;
      this.p1, this.p2 := Point2D(0.0, 0.0), Point2D(0.0, 0.0);
    }

    method PtPt(thep1: Point2D, thep2: Point2D)
      requires Valid()
      modifies this
      ensures Valid() && twisted == old(twisted)
      ensures Rec() == if !Beats(mode, Dist2(thep1, thep2), old(distance2)) then old(Rec())
                       else if twisted > 0 then Record(Dist2(thep1, thep2), thep1, thep2)
                       else Record(Dist2(thep1, thep2), thep2, thep1)
      ensures Advanced(mode, twisted, old(Rec()), Rec(), iset{thep1}, iset{thep2})
      ensures NoneBeats(mode, distance2, iset{thep1}, iset{thep2})
    {
      var dist2 := Dist2(thep1, thep2);
      Dist2Symmetric(thep1, thep2);
      if (distance2 - dist2) * (mode as real) > 0.0 {
        distance2 := dist2;
        if twisted > 0 {
          p1, p2 := thep1, thep2;
        } else {
          p1, p2 := thep2, thep1;
        }
      }
    }

    method PtSeg(p: Point2D, A: Point2D, B: Point2D)
      requires Valid()
      modifies this
      ensures Valid() && twisted == old(twisted)
      ensures Advanced(mode, twisted, old(Rec()), Rec(), iset{p}, Seg(A, B))
      ensures NoneBeats(mode, distance2, iset{p}, Seg(A, B))
    {
      ghost var start := Rec();
      EndsOnSegment(A, B);
      if A.x == B.x && A.y == B.y {
        PtPt(p, A);
        DegenerateSegment(A);
        return;
      }
      LengthPositive(A, B);
      var r := Dot(p, A, B) / Length2(A, B);
      assert r * Length2(A, B) == Dot(p, A, B);
      if mode == DIST_MAX {
        if r >= 0.5 {
          PtPt(p, A);
        } else {
          PtPt(p, B);
        }
        forall q | q in Seg(A, B)
          ensures Dist2(p, q) <= distance2
        {
          FarthestOnSegment(p, A, B, r, q);
        }
        return;
      }
      forall q | q in Seg(A, B)
        ensures Dist2(p, Lerp(A, B, Nearest(r))) <= Dist2(p, q)
      {
        NearestOnSegment(p, A, B, r, q);
      }
      if r < 0.0 {
        PtPt(p, A);
        return;
      }
      if r >= 1.0 {
        PtPt(p, B);
        return;
      }
      var c := Lerp(A, B, r);
      OnSegment(A, B, r);
      if (A.y - p.y)*(B.x - A.x) == (A.x - p.x)*(B.y - A.y) {
        distance2 := 0.0;
        p1 := p;
        p2 := p;
        ProjectionOfOnLine(p, A, B, r);
        Dist2Zero(p);
      }
      ghost var mid := Rec();
      PtPt(p, c);
      AdvancedWider(mode, twisted, start, mid, Rec(), iset{p}, Seg(A, B), iset{p}, iset{c});
    }

    /** Each end point of one segment against the other segment. */
    method EndsAgainst(A: Point2D, B: Point2D, C: Point2D, D: Point2D)
      requires Valid()
      modifies this
      ensures Valid() && twisted == -old(twisted)
      ensures Advanced(mode, old(twisted), old(Rec()), Rec(), Seg(A, B), Seg(C, D))
      ensures NoneBeats(mode, distance2, iset{A, B}, Seg(C, D))
      ensures NoneBeats(mode, distance2, iset{C, D}, Seg(A, B))
    {
      EndsOnSegment(A, B);
      EndsOnSegment(C, D);
      ghost var tw, X, Y, r0 := twisted, Seg(A, B), Seg(C, D), Rec();
      PtSeg(A, C, D);
      ghost var r1 := Rec();
      PtSeg(B, C, D);
      ghost var r2 := Rec();
      AdvancedWider(mode, tw, r0, r1, r2, X, Y, iset{B}, Y);
      twisted := twisted * -1;
      PtSeg(C, A, B);
      ghost var r3 := Rec();
      AdvancedFlip(mode, tw, r2, r3, X, iset{C});
      AdvancedWider(mode, tw, r0, r2, r3, X, Y, X, iset{C});
      PtSeg(D, A, B);
      AdvancedFlip(mode, tw, r3, Rec(), X, iset{D});
      AdvancedWider(mode, tw, r0, r3, Rec(), X, Y, X, iset{D});
    }

    method SegSeg(A: Point2D, B: Point2D, C: Point2D, D: Point2D)
      requires Valid()
      modifies this
      ensures Valid() && (twisted == old(twisted) || twisted == -old(twisted))
      ensures Advanced(mode, old(twisted), old(Rec()), Rec(), Seg(A, B), Seg(C, D))
      ensures NoneBeats(mode, distance2, Seg(A, B), Seg(C, D))
    {
      hide Seg, NoneBeats, Advanced, Dist2;
      ghost var before := Rec();
      if A.x == B.x && A.y == B.y {
        DegenerateSegment(A);
        PtSeg(A, C, D);
        return;
      }
      if C.x == D.x && C.y == D.y {
        DegenerateSegment(D);
        ghost var tw, r0 := twisted, Rec();
        twisted := twisted * -1;
        PtSeg(D, A, B);
        AdvancedFlip(mode, tw, r0, Rec(), Seg(A, B), Seg(C, D));
        NoneBeatsFlip(mode, distance2, Seg(A, B), Seg(C, D));
        return;
      }
      var rTop := (A.y - C.y)*(D.x - C.x) - (A.x - C.x)*(D.y - C.y);
      var rBot := (B.x - A.x)*(D.y - C.y) - (B.y - A.y)*(D.x - C.x);
      var sTop := (A.y - C.y)*(B.x - A.x) - (A.x - C.x)*(B.y - A.y);
      var sBot := (B.x - A.x)*(D.y - C.y) - (B.y - A.y)*(D.x - C.x);
      if rBot == 0.0 || sBot == 0.0 {
        EndsAgainst(A, B, C, D);
        EndsSettle(A, B, C, D, mode, distance2);
        return;
      }
      var s := sTop / sBot;
      var r := rTop / rBot;
      LinesMeet(A, B, C, D, rTop, sTop, rBot);
      hide Lerp;
      if r < 0.0 || r > 1.0 || s < 0.0 || s > 1.0 || mode == DIST_MAX {
        EndsAgainst(A, B, C, D);
        EndsSettle(A, B, C, D, mode, distance2);
        return;
      }
      EndsOnSegment(A, B);
      EndsOnSegment(C, D);
      OnSegment(A, B, r);
      OnSegment(C, D, s);
      var theP;
      if A == C || A == D {
        theP := A;
      } else if B == C || B == D {
        theP := B;
      } else {
        theP := Lerp(A, B, r);
      }
      distance2 := 0.0;
      p1 := theP;
      p2 := theP;
      AdvancedToZero(twisted, before, theP, Seg(A, B), Seg(C, D));
      NothingBelowZero(Seg(A, B), Seg(C, D));
    }

    /** SegSeg without the crossing test, for segments known not to cross. */
    method SelectedSegSeg(A: Point2D, B: Point2D, C: Point2D, D: Point2D)
      requires Valid()
      modifies this
      ensures Valid() && (twisted == old(twisted) || twisted == -old(twisted))
      ensures Advanced(mode, old(twisted), old(Rec()), Rec(), Seg(A, B), Seg(C, D))
      ensures mode == DIST_MAX || A == B || C == D || Apart(A, B, C, D)
              ==> NoneBeats(mode, distance2, Seg(A, B), Seg(C, D))
    {
      if A.x == B.x && A.y == B.y {
        DegenerateSegment(A);
        PtSeg(A, C, D);
        return;
      }
      if C.x == D.x && C.y == D.y {
        DegenerateSegment(D);
        ghost var tw, r0 := twisted, Rec();
        twisted := twisted * -1;
        PtSeg(D, A, B);
        AdvancedFlip(mode, tw, r0, Rec(), Seg(A, B), Seg(C, D));
        NoneBeatsFlip(mode, distance2, Seg(A, B), Seg(C, D));
        return;
      }
      EndsAgainst(A, B, C, D);
      if mode == DIST_MAX || Apart(A, B, C, D) {
        EndsSettle(A, B, C, D, mode, distance2);
      }
    }

    /** In maximum mode all pairs of vertices are enough. */
    method EachPtPt(l1: seq<Point2D>, l2: seq<Point2D>)
      requires Valid() && mode == DIST_MAX && |l1| > 0 && |l2| > 0
      modifies this
      ensures Valid()
      ensures Advanced(mode, old(twisted), old(Rec()), Rec(), Path(l1), Path(l2))
      ensures NoneBeats(mode, distance2, Path(l1), Path(l2))
    {
      hide Path, Advanced, NoneBeats, Dist2;
      var twist := twisted;
      ghost var r0 := Rec();
      AdvancedNowhere(mode, twist, r0, Path(l1), Path(l2));
      var t := 0;
      while t < |l1|
        invariant 0 <= t <= |l1| && Valid() && twisted == twist
        invariant Advanced(mode, twist, r0, Rec(), Path(l1), Path(l2))
        invariant forall i, j :: 0 <= i < t && 0 <= j < |l2| ==> Dist2(l1[i], l2[j]) <= distance2
      {
        var u := 0;
        while u < |l2|
          invariant 0 <= u <= |l2| && Valid() && twisted == twist
          invariant Advanced(mode, twist, r0, Rec(), Path(l1), Path(l2))
          invariant forall i, j :: 0 <= i <= t && 0 <= j < |l2| && (i < t || j < u) ==> Dist2(l1[i], l2[j]) <= distance2
        {
          ghost var r1 := Rec();
          PtPt(l1[t], l2[u]);
          NoneBeatsPair(distance2, l1[t], l2[u]);
          Grows(mode, twist, r1, Rec(), iset{l1[t]}, iset{l2[u]});
          VertexSetInPath(l1, t);
          VertexSetInPath(l2, u);
          AdvancedWider(mode, twist, r0, r1, Rec(), Path(l1), Path(l2), iset{l1[t]}, iset{l2[u]});
          u := u + 1;
        }
        t := t + 1;
      }
      VerticesSettleMaximum(distance2, l1, l2);
    }

    /** Every segment of l1 against every segment of l2; for a maximum, every vertex
        against every vertex.  In minimum mode a line of one vertex has no segment, and
        nothing is compared. */
    method PtArrayPtArray(l1: seq<Point2D>, l2: seq<Point2D>)
      requires Valid() && |l1| > 0 && |l2| > 0
      modifies this
      ensures Valid()
      ensures Advanced(mode, old(twisted), old(Rec()), Rec(), Path(l1), Path(l2))
      ensures mode == DIST_MAX || (|l1| >= 2 && |l2| >= 2 && !(tolerance >= 0.0 && distance2 <= tolerance*tolerance))
              ==> NoneBeats(mode, distance2, Path(l1), Path(l2))
      ensures mode == DIST_MIN && (|l1| == 1 || |l2| == 1) ==> Rec() == old(Rec())
    {
      hide Advanced, Path, EdgesDone, Dist2, NoneBeats;
      var twist := twisted;
      ghost var r0 := Rec();
      AdvancedNowhere(mode, twist, r0, Path(l1), Path(l2));
      NoEdgesDone(mode, distance2, l1, l2);
      if mode == DIST_MAX {
        EachPtPt(l1, l2);
        return;
      }
      var start := l1[0];
      var t := 1;
      while t < |l1|
        invariant 1 <= t <= |l1| && start == l1[t-1] && Valid()
        invariant Advanced(mode, twist, r0, Rec(), Path(l1), Path(l2))
        invariant EdgesDone(mode, distance2, l1, l2, t - 1, 0)
        invariant |l1| == 1 || |l2| == 1 ==> Rec() == r0
      {
        var end := l1[t];
        var start2 := l2[0];
        var u := 1;
        while u < |l2|
          invariant 1 <= u <= |l2| && start2 == l2[u-1] && Valid()
          invariant Advanced(mode, twist, r0, Rec(), Path(l1), Path(l2))
          invariant EdgesDone(mode, distance2, l1, l2, t - 1, u - 1)
          invariant |l2| == 1 ==> Rec() == r0
        {
          var end2 := l2[u];
          twisted := twist;
          ghost var r1 := Rec();
          SegSeg(start, end, start2, end2);
          EdgeInPath(l1, t - 1);
          EdgeInPath(l2, u - 1);
          AdvancedWider(mode, twist, r0, r1, Rec(), Path(l1), Path(l2), Edge(l1, t - 1), Edge(l2, u - 1));
          Grows(mode, twist, r1, Rec(), Edge(l1, t - 1), Edge(l2, u - 1));
          EdgesDoneKeeps(mode, r1.d2, distance2, l1, l2, t - 1, u - 1);
          EdgeDone(mode, distance2, l1, l2, t - 1, u - 1);
          if Within() {
            return;
          }
          start2 := end2;
          u := u + 1;
        }
        RowDone(mode, distance2, l1, l2, t - 1);
        start := end;
        t := t + 1;
      }
      if |l1| >= 2 && |l2| >= 2 {
        EdgesDonePaths(mode, distance2, l1, l2);
      }
    }

    /** One vertex of l1, with its edge in direction r, against the vertices of l2 in
        ascending measure: the innermost loop of rt_dist2d_pre_seg_seg. */
    method SweepRow(l1: seq<Point2D>, l2: seq<Point2D>, list2: array<ListStruct>, k: real, ghost north: bool,
                    pnr1: int, r: int, measure1: real, twist: int)
      requires Valid() && mode == DIST_MIN && 0 <= pnr1 < |l1| && |l2| > 0
      requires (r == 1 || r == -1) && (twist == 1 || twist == -1)
      requires measure1 == Measure(north, k, l1[pnr1])
      requires list2.Length == |l2| && Lists(list2[..], l2, north, k) && Ascending(list2[..], TheMeasure)
      requires Path(l1) !! Path(l2)
      modifies this
      ensures Valid()
      ensures Advanced(mode, twist, old(Rec()), Rec(), Path(l1), Path(l2))
      ensures RowSettled(distance2, north, k, l1, l2, pnr1, r, list2[..], |l2|)
    {
      hide Measure, Dist2, Apart, Oriented, Settled, NoneBeats, Path, Ascending, RowSettled;
      ghost var r0, s2, X, Y := Rec(), list2[..], Path(l1), Path(l2);
      EmptyRowSettled(distance2, north, k, l1, l2, pnr1, r, s2);
      var max2 := distance2 + distance2*k*k;
      var pnr2 := Neighbour(l1, pnr1, r);
      var p1, p2 := l1[pnr1], l1[pnr2];
      var u := 0;
      while u < |l2|
        invariant 0 <= u <= |l2| && Valid() && max2 == distance2 + distance2*k*k
        invariant Advanced(mode, twist, r0, Rec(), X, Y)
        invariant RowSettled(distance2, north, k, l1, l2, pnr1, r, s2, u)
      {
        assert list2[u] == s2[u] && s2[u] in s2;
        if AtLeastRoot(list2[u].themeasure - measure1, max2) {
          GapSettlesRow(distance2, north, k, l1, l2, pnr1, r, s2, u);
          break;
        }
        var pnr3 := list2[u].pnr;
        var p3 := l2[pnr3];
        ghost var d0 := distance2;
        Compare(p1, p2, p3, l1, l2, pnr1, r, pnr3, -1, twist, r0);
        ghost var d1 := distance2;
        Compare(p1, p2, p3, l1, l2, pnr1, r, pnr3, 1, twist, r0);
        max2 := distance2 + distance2*k*k;
        NoneBeatsKeeps(mode, d1, distance2, Seg(p1, p2), Seg(p3, l2[Neighbour(l2, pnr3, -1)]));
        RowSettledKeeps(d0, distance2, north, k, l1, l2, pnr1, r, s2, u);
        RowExtends(distance2, north, k, l1, l2, pnr1, r, s2, u);
        u := u + 1;
      }
    }

    /** The edge p1-p2 of l1 against the edge of l2 from p3 in direction r'. */
    method Compare(p1: Point2D, p2: Point2D, p3: Point2D, l1: seq<Point2D>, l2: seq<Point2D>,
                   ghost pnr1: int, ghost r: int, pnr3: int, r': int, twist: int, ghost r0: Record)
      requires Valid() && mode == DIST_MIN && 0 <= pnr1 < |l1| && 0 <= pnr3 < |l2|
      requires (r == 1 || r == -1) && (r' == 1 || r' == -1) && (twist == 1 || twist == -1)
      requires p1 == l1[pnr1] && p2 == l1[Neighbour(l1, pnr1, r)] && p3 == l2[pnr3]
      requires Path(l1) !! Path(l2)
      requires Advanced(mode, twist, r0, Rec(), Path(l1), Path(l2))
      modifies this
      ensures Valid() && distance2 <= old(distance2)
      ensures Advanced(mode, twist, r0, Rec(), Path(l1), Path(l2))
      ensures NoneBeats(mode, distance2, Seg(p1, p2), Seg(p3, l2[Neighbour(l2, pnr3, r')]))
    {
      hide Dist2, Apart;
      var pnr4 := Neighbour(l2, pnr3, r');
      var p4 := l2[pnr4];
      NeighboursApart(l1, l2, pnr1, r, pnr3, r');
      ghost var before := Rec();
      twisted := twist;
      SelectedSegSeg(p1, p2, p3, p4);
      AdvancedWider(mode, twist, r0, before, Rec(), Path(l1), Path(l2), Seg(p1, p2), Seg(p3, p4));
    }

    /** One vertex of l1 with the edges before and after it. */
    method SweepVertex(l1: seq<Point2D>, l2: seq<Point2D>, list2: array<ListStruct>, k: real, ghost north: bool,
                       pnr1: int, measure1: real, twist: int)
      requires Valid() && mode == DIST_MIN && 0 <= pnr1 < |l1| && |l2| > 0
      requires twist == 1 || twist == -1
      requires measure1 == Measure(north, k, l1[pnr1])
      requires list2.Length == |l2| && Lists(list2[..], l2, north, k) && Ascending(list2[..], TheMeasure)
      requires Path(l1) !! Path(l2)
      modifies this
      ensures Valid()
      ensures Advanced(mode, twist, old(Rec()), Rec(), Path(l1), Path(l2))
      ensures RowSettled(distance2, north, k, l1, l2, pnr1, -1, list2[..], |l2|)
      ensures RowSettled(distance2, north, k, l1, l2, pnr1, 1, list2[..], |l2|)
    {
      hide Measure, Dist2, Oriented, Path, Lists, Ascending, RowSettled;
      ghost var r0, s2, X, Y := Rec(), list2[..], Path(l1), Path(l2);
      var r := -1;
      while r <= 1
        invariant r == -1 || r == 1 || r == 3
        invariant Valid() && Advanced(mode, twist, r0, Rec(), X, Y)
        invariant r > -1 ==> RowSettled(distance2, north, k, l1, l2, pnr1, -1, s2, |l2|)
        invariant r > 1 ==> RowSettled(distance2, north, k, l1, l2, pnr1, 1, s2, |l2|)
      {
        ghost var before := Rec();
        SweepRow(l1, l2, list2, k, north, pnr1, r, measure1, twist);
        AdvancedWider(mode, twist, r0, before, Rec(), X, Y, X, Y);
        if r == 1 {
          RowSettledKeeps(before.d2, distance2, north, k, l1, l2, pnr1, -1, s2, |l2|);
        }
        r := r + 2;
      }
    }

    /** Compare edges around vertices taken in measure order from the gap outwards,
        stopping as soon as the measures alone rule the rest out. */
    method PreSegSeg(l1: seq<Point2D>, l2: seq<Point2D>, list1: array<ListStruct>, list2: array<ListStruct>,
                     k: real, ghost north: bool)
      requires Valid() && mode == DIST_MIN && |l1| > 0 && |l2| > 0
      requires list1.Length == |l1| && Lists(list1[..], l1, north, k) && Ascending(list1[..], TheMeasure)
      requires list2.Length == |l2| && Lists(list2[..], l2, north, k) && Ascending(list2[..], TheMeasure)
      requires Path(l1) !! Path(l2)
      modifies this
      ensures Valid()
      ensures Advanced(mode, old(twisted), old(Rec()), Rec(), Path(l1), Path(l2))
      ensures NoneBeats(mode, distance2, Path(l1), Path(l2))
    {
      hide Measure, Dist2, Ascending, RowSettled, Path, Lists, RowsSettled, Advanced, NoneBeats, AboveRoot;
      ghost var r0, s1, s2, X, Y := Rec(), list1[..], list2[..], Path(l1), Path(l2);
      EntryOf(s1, l1, north, k, 0);
      EntryOf(s2, l2, north, k, 0);
      VertexSetInPath(l1, list1[0].pnr);
      VertexSetInPath(l2, list2[0].pnr);
      var p1, p3 := l1[list1[0].pnr], l2[list2[0].pnr];
      AdvancedNowhere(mode, twisted, r0, X, Y);
      PtPt(p1, p3);
      AdvancedWider(mode, twisted, r0, r0, Rec(), X, Y, iset{p1}, iset{p3});
      var twist := twisted;
      var i := |l1| - 1;
      NoRowsYet(distance2, north, k, l1, l2, s1, s2);
      while i >= 0
        invariant -1 <= i < |l1| && Valid()
        invariant Advanced(mode, twist, r0, Rec(), X, Y)
        invariant RowsSettled(distance2, north, k, l1, l2, s1, s2, i + 1)
      {
        var max2 := distance2 + distance2*k*k;
        EntryOf(s1, l1, north, k, i);
        if AboveRoot(list2[0].themeasure - list1[i].themeasure, max2) {
          AboveIsAtLeast(list2[0].themeasure - list1[i].themeasure, max2);
          GapSettlesRows(distance2, north, k, l1, l2, s1, s2, i);
          break;
        }
        ghost var before := Rec();
        SweepVertex(l1, l2, list2, k, north, list1[i].pnr, list1[i].themeasure, twist);
        AdvancedWider(mode, twist, r0, before, Rec(), X, Y, X, Y);
        Grows(mode, twist, before, Rec(), X, Y);
        RowsSettledKeeps(before.d2, distance2, north, k, l1, l2, s1, s2, i + 1);
        NextRowSettled(distance2, north, k, l1, l2, s1, s2, i);
        i := i - 1;
      }
      RowsSettleEverything(distance2, north, k, l1, l2, s1, s2);
    }

    /** The fast path for two lines in boxes that do not overlap. */
    method FastPtArrayPtArray(l1: seq<Point2D>, l2: seq<Point2D>, box1: GBox, box2: GBox)
      requires Valid() && mode == DIST_MIN && |l1| > 0 && |l2| > 0
      requires Bounds(box1, l1) && Bounds(box2, l2) && !Overlaps2d(box1, box2)
      modifies this
      ensures Valid()
      ensures Advanced(mode, old(twisted), old(Rec()), Rec(), Path(l1), Path(l2))
      ensures NoneBeats(mode, distance2, Path(l1), Path(l2))
    {
      hide Measure, Dist2, NoneBeats, Oriented, Path;
      assert InBox(l1[0], box1) && InBox(l2[0], box2);
      BoxesSeparate(l1, l2, box1, box2);
      var c1 := Point2D(box1.xmin + (box1.xmax - box1.xmin)/2.0, box1.ymin + (box1.ymax - box1.ymin)/2.0);
      var c2 := Point2D(box2.xmin + (box2.xmax - box2.xmin)/2.0, box2.ymin + (box2.ymax - box2.ymin)/2.0);
      var deltaX, deltaY := c2.x - c1.x, c2.y - c1.y;
      var north := deltaX*deltaX < deltaY*deltaY;
      SlopeDefined(deltaX, deltaY);
      var k := if north then -deltaX/deltaY else -deltaY/deltaX;
      var list1 := FillList(l1, north, k);
      var list2 := FillList(l2, north, k);
      var c1m, c2m := Measure(north, k, c1), Measure(north, k, c2);
      SortList(list1, l1, north, k);
      SortList(list2, l2, north, k);
      if c1m < c2m {
        PreSegSeg(l1, l2, list1, list2, k, north);
      } else {
        ghost var tw, r0 := twisted, Rec();
        twisted := twisted * -1;
        PreSegSeg(l2, l1, list2, list1, k, north);
        AdvancedFlip(mode, tw, r0, Rec(), Path(l1), Path(l2));
        NoneBeatsFlip(mode, distance2, Path(l1), Path(l2));
      }
    }
  }

  lemma ProjectionScalar(ux: real, uy: real, wx: real, wy: real, r: real)
    requires wy*ux == wx*uy
    requires r*(ux*ux + uy*uy) == -(wx*ux + wy*uy) && ux*ux + uy*uy != 0.0
    ensures wx + r*ux == 0.0 && wy + r*uy == 0.0
  {
    var a := ux*ux + uy*uy;
    assert a*(wx + r*ux) == a*wx + (r*a)*ux;
    assert a*wx - (wx*ux + wy*uy)*ux == uy*(wx*uy - wy*ux);
    assert a*(wy + r*uy) == a*wy + (r*a)*uy;
    assert a*wy - (wx*ux + wy*uy)*uy == ux*(wy*ux - wx*uy);
    NonZeroFactor(a, wx + r*ux);
    NonZeroFactor(a, wy + r*uy);
  }

  /** The exact on-line test of the source: such a point is its own projection. */
  lemma ProjectionOfOnLine(p: Point2D, A: Point2D, B: Point2D, r: real)
    requires A != B && r * Length2(A, B) == Dot(p, A, B)
    requires (A.y - p.y)*(B.x - A.x) == (A.x - p.x)*(B.y - A.y)
    ensures Lerp(A, B, r) == p
  {
    LengthPositive(A, B);
    var u, v, m, n := B.x - A.x, B.y - A.y, A.x - p.x, A.y - p.y;
    assert Dot(p, A, B) == -(m*u + n*v);
    ProjectionScalar(u, v, m, n, r);
  }

  // ---- What the contracts amount to ----

  /** From a start above the answer, a finished search holds exactly the extreme
      squared distance of the two lines, with a pair of points attaining it. */
  lemma ExactExtreme(mode: int, twisted: int, before: Record, after: Record, l1: seq<Point2D>, l2: seq<Point2D>)
    requires (mode == DIST_MIN || mode == DIST_MAX) && |l1| > 0 && |l2| > 0
    requires Advanced(mode, twisted, before, after, Path(l1), Path(l2))
    requires NoneBeats(mode, after.d2, Path(l1), Path(l2))
    requires Beats(mode, Dist2(l1[0], l2[0]), before.d2)
    ensures Oriented(twisted, after, Path(l1), Path(l2)) && Dist2(after.p1, after.p2) == after.d2
    ensures forall p, q :: p in Path(l1) && q in Path(l2) ==> !Beats(mode, Dist2(p, q), after.d2)
  {
    VertexInPath(l1, 0);
    VertexInPath(l2, 0);
    assert !Beats(mode, Dist2(l1[0], l2[0]), after.d2);
  }

  /** A whole search, as it is initialised: for lines that are nowhere farther apart at their
      first vertices than a float can tell, the extreme distance and a pair of points that has
      it; `twisted` starts at -1, so the first of them is on the second line. */
  method SearchFromInit(mode: int, l1: seq<Point2D>, l2: seq<Point2D>) returns (d2: real, p1: Point2D, p2: Point2D)
    requires (mode == DIST_MIN || mode == DIST_MAX) && |l1| >= 2 && |l2| >= 2
    requires Dist2(l1[0], l2[0]) < 340282346638528859811704183484516925440.0 * 340282346638528859811704183484516925440.0
    ensures p1 in Path(l2) && p2 in Path(l1) && Dist2(p1, p2) == d2
    ensures forall p, q :: p in Path(l1) && q in Path(l2) ==> if mode == DIST_MIN then d2 <= Dist2(p, q) else Dist2(p, q) <= d2
  {
    hide Path, Dist2, NoneBeats;
    var d := new DistPts.Init(mode);
    ghost var before := d.Rec();
    Dist2Symmetric(l1[0], l2[0]);
    d.PtArrayPtArray(l1, l2);
    if mode == DIST_MIN {
      ZeroToleranceFinishes(d.distance2, l1, l2, d.Within());
    }
    ExactExtreme(mode, -1, before, d.Rec(), l1, l2);
    d2, p1, p2 := d.distance2, d.p1, d.p2;
  }

  /** Two finished searches from the same start record the same distance: the fast
      path and the brute force agree, whatever the slope and the order of the lines. */
  lemma SearchesAgree(mode: int, twisted: int, before: Record, fast: Record, brute: Record,
                      l1: seq<Point2D>, l2: seq<Point2D>)
    requires (mode == DIST_MIN || mode == DIST_MAX) && |l1| > 0 && |l2| > 0
    requires Advanced(mode, twisted, before, fast, Path(l1), Path(l2))
    requires NoneBeats(mode, fast.d2, Path(l1), Path(l2))
    requires Advanced(mode, twisted, before, brute, Path(l1), Path(l2))
    requires NoneBeats(mode, brute.d2, Path(l1), Path(l2))
    ensures fast.d2 == brute.d2
  {
    hide Path, Dist2;
    Dist2Symmetric(fast.p1, fast.p2);
    Dist2Symmetric(brute.p1, brute.p2);
  }

  /** Both searches on their own copies of one accumulator. */
  method FastAgainstBrute(l1: seq<Point2D>, l2: seq<Point2D>, box1: GBox, box2: GBox, start2: real, twisted: int)
    returns (fast2: real, brute2: real)
    requires |l1| >= 2 && |l2| >= 2 && start2 >= 0.0 && (twisted == 1 || twisted == -1)
    requires Bounds(box1, l1) && Bounds(box2, l2) && !Overlaps2d(box1, box2)
    ensures fast2 == brute2
    ensures NoneBeats(DIST_MIN, fast2, Path(l1), Path(l2))
    ensures fast2 == start2 || exists p, q :: p in Path(l1) && q in Path(l2) && Dist2(p, q) == fast2
  {
    hide Path, Dist2;
    var a := new DistPts(start2, DIST_MIN, twisted, 0.0);
    var b := new DistPts(start2, DIST_MIN, twisted, 0.0);
    ghost var before := a.Rec();
    a.FastPtArrayPtArray(l1, l2, box1, box2);
    b.PtArrayPtArray(l1, l2);
    ZeroToleranceFinishes(b.distance2, l1, l2, b.Within());
    SearchesAgree(DIST_MIN, twisted, before, a.Rec(), b.Rec(), l1, l2);
    fast2, brute2 := a.distance2, b.distance2;
    Dist2Symmetric(a.p1, a.p2);
  }

  lemma ZeroToleranceFinishes(d2: real, l1: seq<Point2D>, l2: seq<Point2D>, within: bool)
    requires |l1| > 0 && |l2| > 0
    requires if within then d2 <= 0.0 else NoneBeats(DIST_MIN, d2, Path(l1), Path(l2))
    ensures NoneBeats(DIST_MIN, d2, Path(l1), Path(l2))
  {
    hide Path, Dist2;
    forall p, q | p in Path(l1) && q in Path(l2)
      ensures d2 <= Dist2(p, q)
    {
      Dist2Symmetric(p, q);
    }
  }
}
