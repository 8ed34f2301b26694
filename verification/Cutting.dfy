/** Where a point hits a line and the two pieces it leaves (src/rtgeom_geos_split.c and
    closest_point_on_segment in src/ptarray.c). */
module Cutting {
  import opened Convex
  import opened PointArrays
  import P2 = Planar

  type Line = seq<Point4D>

  function XY(p: Point4D): P2.Point2D { P2.Point2D(p.x, p.y) }

  function Flat(p: Point4D): Point4D { Stored(p, false, false) }

  /** Every vertex is what an array with these dimensions keeps. */
  predicate IsStored(line: Line, hasz: bool, hasm: bool) {
    forall k :: 0 <= k < |line| ==> line[k] == Stored(line[k], hasz, hasm)
  }

  /** The line without its Z and M. */
  function Flatten(line: Line): (f: Line)
    ensures |f| == |line| && forall k :: 0 <= k < |line| ==> f[k] == Flat(line[k])
  {
    seq(|line|, k requires 0 <= k < |line| => Flat(line[k]))
  }

  /** What a line draws in the plane. */
  ghost function Shadow(line: Line): iset<Point4D> { Path(Flatten(line)) }

  lemma FlattenStored(line: Line)
    requires IsStored(line, false, false)
    ensures Flatten(line) == line && Shadow(line) == Path(line)
  {
  }

  // ---- Point sets ----

  /** Two polylines that meet at a vertex make one. */
  lemma {:induction false} PathConcat(a: Line, b: Line)
    requires a != [] && b != [] && a[|a| - 1] == b[0]
    ensures Path(a + b[1..]) == Path(a) + Path(b)
    decreases |b|
  {
    if |b| == 1 {
      assert a + b[1..] == a;
      LastOnPath(a);
    } else {
      var front, p := b[..|b| - 1], b[|b| - 1];
      PathConcat(a, front);
      assert a + b[1..] == (a + front[1..]) + [p];
      assert b == front + [p];
      PathAppend(a + front[1..], p);
      PathAppend(front, p);
      assert (a + front[1..])[|a + front[1..]| - 1] == front[|front| - 1];
    }
  }

  lemma ScaleUnit(t: real, s: real)
    requires 0.0 <= s <= 1.0 && 0.0 <= t <= 1.0
    ensures 0.0 <= t*s <= 1.0
  {
    ProductNonNegative(t, s);
    ProductNonNegative(1.0 - t, s);
    assert (1.0 - t)*s == s - t*s;
  }

  lemma Fraction(s: real, t: real) returns (r: real)
    requires 0.0 <= s <= t && t > 0.0
    ensures 0.0 <= r <= 1.0 && r*t == s
  {
    r := s / t;
  }

  /** A point cuts a segment in two. */
  lemma SegmentCut(A: Point4D, B: Point4D, p: Point4D)
    requires p in Seg(A, B)
    ensures Seg(A, B) == Seg(A, p) + Seg(p, B)
  {
    var t :| 0.0 <= t <= 1.0 && p == Lerp(A, B, t);
    forall q | q in Seg(A, B)
      ensures q in Seg(A, p) + Seg(p, B)
    {
      var s :| 0.0 <= s <= 1.0 && q == Lerp(A, B, s);
      BeforeOrAfter(A, B, t, s);
    }
    forall q | q in Seg(A, p)
      ensures q in Seg(A, B)
    {
      var s :| 0.0 <= s <= 1.0 && q == Lerp(A, p, s);
      EndsOnSegment(A, B);
      LerpNested(A, B, 0.0, t, s, s*t);
      ScaleUnit(s, t);
      OnSegment(A, B, s*t);
    }
    forall q | q in Seg(p, B)
      ensures q in Seg(A, B)
    {
      var s :| 0.0 <= s <= 1.0 && q == Lerp(p, B, s);
      EndsOnSegment(A, B);
      LerpNested(A, B, t, 1.0, s, t + s*(1.0 - t));
      ScaleUnit(s, 1.0 - t);
      ScaleUnit(1.0 - s, 1.0 - t);
      assert t + s*(1.0 - t) == 1.0 - (1.0 - s)*(1.0 - t);
      OnSegment(A, B, t + s*(1.0 - t));
    }
  }

  lemma BeforeOrAfter(A: Point4D, B: Point4D, t: real, s: real)
    requires 0.0 <= s <= 1.0 && 0.0 <= t <= 1.0
    ensures var p, q := Lerp(A, B, t), Lerp(A, B, s); q in Seg(A, p) || q in Seg(p, B)
  {
    hide Lerp;
    var p := Lerp(A, B, t);
    EndsOnSegment(A, B);
    if s <= t {
      if t > 0.0 {
        var r := Fraction(s, t);
        LerpNested(A, B, 0.0, t, r, s);
        OnSegment(A, p, r);
      } else {
        EndsOnSegment(A, p);
      }
    } else {
      var r := Fraction(s - t, 1.0 - t);
      LerpNested(A, B, t, 1.0, r, s);
      OnSegment(p, B, r);
    }
  }

  /** All points of some lines. */
  ghost function Union(lines: seq<Line>): iset<Point4D> {
    iset p: Point4D | OnSome(p, lines)
  }

  ghost predicate OnSome(p: Point4D, lines: seq<Line>) {
    exists k :: 0 <= k < |lines| && p in Path(lines[k])
  }

  lemma UnionOfOne(line: Line)
    ensures Union([line]) == Path(line)
  {
    forall p | p in Path(line)
      ensures OnSome(p, [line])
    {
      assert p in Path([line][0]);
    }
  }

  /** Replacing a line by two that cover it, one in its place and one at the end. */
  lemma UnionReplaced(lines: seq<Line>, j: nat, head: Line, tail: Line)
    requires j < |lines| && Path(lines[j]) == Path(head) + Path(tail)
    ensures Union(lines[j := tail] + [head]) == Union(lines)
  {
    hide Path;
    var after := lines[j := tail] + [head];
    forall p | OnSome(p, lines)
      ensures OnSome(p, after)
    {
      var k :| 0 <= k < |lines| && p in Path(lines[k]);
      assert after[j] == tail && after[|lines|] == head;
      assert k != j ==> after[k] == lines[k];
    }
    forall p | OnSome(p, after)
      ensures OnSome(p, lines)
    {
      var k :| 0 <= k < |after| && p in Path(after[k]);
      assert p in Path(lines[if k == |lines| then j else k]);
    }
  }

  // ---- Where a point hits a line ----

  /** The point is on segment k. */
  predicate Hits(line: Line, b: Point4D, k: nat)
    requires k + 1 < |line|
  {
    P2.PtSegDist2(XY(b), XY(line[k]), XY(line[k + 1])) == 0.0
  }

  /** The first segment from i on that the point is on; the length of the line if there is
      none. */
  function FirstHit(line: Line, b: Point4D, i: nat): (k: nat)
    requires i <= |line|
    ensures i <= k <= |line|
    ensures k < |line| ==> k + 1 < |line| && Hits(line, b, k)
    ensures forall n: nat :: i <= n < k && n + 1 < |line| ==> !Hits(line, b, n)
    decreases |line| - i
  {
    if i + 1 >= |line| then |line| else if Hits(line, b, i) then i else FirstHit(line, b, i + 1)
  }

  lemma FirstHitIs(line: Line, b: Point4D, k: nat)
    requires k + 1 < |line| && Hits(line, b, k)
    requires forall n: nat :: n < k ==> !Hits(line, b, n)
    ensures FirstHit(line, b, 0) == k
  {
  }

  predicate NoHits(line: Line, b: Point4D) {
    forall n: nat :: n + 1 < |line| ==> !Hits(line, b, n)
  }

  lemma NoHit(line: Line, b: Point4D)
    requires NoHits(line, b)
    ensures FirstHit(line, b, 0) == |line|
  {
  }

  lemma FlatLerp(A: Point4D, B: Point4D, t: real)
    requires A == Flat(A) && B == Flat(B)
    ensures Lerp(A, B, t) == Flat(Lerp(A, B, t)) && XY(Lerp(A, B, t)) == P2.Lerp(XY(A), XY(B), t)
  {
    hide Mix;
    MixNothing(A.z, B.z, t);
    MixNothing(A.m, B.m, t);
    MixIs(A.x, B.x, t);
    MixIs(A.y, B.y, t);
  }

  lemma MixNothing(a: real, b: real, t: real)
    requires a == b == NO_VALUE
    ensures Mix(a, b, t) == NO_VALUE
  {
    assert b - a == 0.0;
  }

  lemma MixIs(a: real, b: real, t: real)
    ensures Mix(a, b, t) == a + t*(b - a)
  {
  }

  lemma NoDistance(p: P2.Point2D, q: P2.Point2D)
    requires P2.Dist2(p, q) == 0.0
    ensures p == q
  {
    if p != q {
      P2.LengthPositive(p, q);
    }
  }

  /** Distance zero is lying on the segment, seen in the plane. */
  lemma HitIsOn(line: Line, b: Point4D, k: nat)
    requires k + 1 < |line|
    ensures Hits(line, b, k) <==> Flat(b) in Seg(Flat(line[k]), Flat(line[k + 1]))
  {
    hide P2.PtSegDist2, P2.Dist2;
    var A, B := Flat(line[k]), Flat(line[k + 1]);
    if Hits(line, b, k) {
      var t := HitFraction(line, b, k);
      FlatLerp(A, B, t);
      assert Flat(b) == Lerp(A, B, t);
      OnSegment(A, B, t);
    }
    if Flat(b) in Seg(A, B) {
      var q := P2.PtSegDist2Exact(XY(b), XY(A), XY(B));
      var t :| 0.0 <= t <= 1.0 && Flat(b) == Lerp(A, B, t);
      FlatLerp(A, B, t);
      P2.OnSegment(XY(A), XY(B), t);
      assert XY(b) == P2.Lerp(XY(A), XY(B), t);
      P2.Dist2Zero(XY(b));
      P2.Dist2Symmetric(XY(b), q);
    }
  }

  lemma HitFraction(line: Line, b: Point4D, k: nat) returns (t: real)
    requires k + 1 < |line| && Hits(line, b, k)
    ensures 0.0 <= t <= 1.0 && XY(b) == P2.Lerp(XY(line[k]), XY(line[k + 1]), t)
  {
    hide P2.PtSegDist2, P2.Dist2;
    var A, B := XY(line[k]), XY(line[k + 1]);
    var q := P2.PtSegDist2Exact(XY(b), A, B);
    NoDistance(XY(b), q);
    t :| 0.0 <= t <= 1.0 && q == P2.Lerp(A, B, t);
  }

  lemma {:induction false} OnPathIsHit(line: Line, b: Point4D)
    requires |line| >= 2
    ensures FirstHit(line, b, 0) < |line| <==> Flat(b) in Shadow(line)
    decreases |line|
  {
    hide Hits, Seg;
    var n := |line| - 1;
    var front := line[..n];
    HitIsOn(line, b, n - 1);
    assert Flatten(line)[..n] == Flatten(front);
    assert Shadow(line) == Shadow(front) + Seg(Flatten(line)[n - 1], Flatten(line)[n]);
    if n >= 2 {
      OnPathIsHit(front, b);
      forall k: nat | k + 1 < n
        ensures Hits(front, b, k) <==> Hits(line, b, k)
      {
        SameEdge(front, k, line, k, b);
      }
    } else {
      EndsOnSegment(Flat(line[0]), Flat(line[1]));
      assert Shadow(front) == iset{Flat(line[0])};
    }
  }

  // ---- The two pieces ----

  /** closest_point_on_segment. */
  function ClosestPointOnSegment(p: Point4D, A: Point4D, B: Point4D): Point4D {
    if Short(A, B) then A
    else
      P2.LengthPositive(XY(A), XY(B));
      var r := P2.Dot(XY(p), XY(A), XY(B)) / P2.Length2(XY(A), XY(B));
      if r < 0.0 then A
      else if r > 1.0 then B
      else Interpolated(A, B, r)
  }

  function Interpolated(A: Point4D, B: Point4D, r: real): Point4D {
    Point4D(A.x + (B.x - A.x)*r, A.y + (B.y - A.y)*r, A.z + (B.z - A.z)*r, A.m + (B.m - A.m)*r)
  }

  /** It is the nearest point of the segment in the plane, with Z and M in proportion; of a
      short segment it is the start. */
  lemma ClosestIsNearest(p: Point4D, A: Point4D, B: Point4D) returns (t: real)
    ensures Short(A, B) ==> ClosestPointOnSegment(p, A, B) == A
    ensures !Short(A, B) ==> 0.0 <= t <= 1.0 && ClosestPointOnSegment(p, A, B) == Lerp(A, B, t)
    ensures !Short(A, B) ==> forall q :: q in P2.Seg(XY(A), XY(B))
                                   ==> P2.Dist2(XY(p), XY(ClosestPointOnSegment(p, A, B))) <= P2.Dist2(XY(p), q)
  {
    hide P2.Dot, P2.Length2, P2.Dist2, Lerp, Interpolated;
    t := 0.0;
    if !Short(A, B) {
      P2.LengthPositive(XY(A), XY(B));
      var r := P2.Dot(XY(p), XY(A), XY(B)) / P2.Length2(XY(A), XY(B));
      DivideBack(P2.Dot(XY(p), XY(A), XY(B)), P2.Length2(XY(A), XY(B)));
      t := Nearest(r);
      EndsOnSegment(A, B);
      InterpolatedIsLerp(A, B, r);
      assert ClosestPointOnSegment(p, A, B) == Lerp(A, B, t);
      PlanarLerp(A, B, t);
      forall q | q in P2.Seg(XY(A), XY(B))
        ensures P2.Dist2(XY(p), XY(Lerp(A, B, t))) <= P2.Dist2(XY(p), q)
      {
        P2.NearestOnSegment(XY(p), XY(A), XY(B), r, q);
      }
    }
  }

  lemma InterpolatedIsLerp(A: Point4D, B: Point4D, r: real)
    ensures Interpolated(A, B, r) == Lerp(A, B, r)
  {
    hide Mix;
    Commutes(A.x, B.x, r);
    Commutes(A.y, B.y, r);
    Commutes(A.z, B.z, r);
    Commutes(A.m, B.m, r);
  }

  lemma PlanarLerp(A: Point4D, B: Point4D, t: real)
    ensures XY(Lerp(A, B, t)) == P2.Lerp(XY(A), XY(B), t)
  {
  }

  /** The point of a segment at which it is cut: the projection, with the X and Y of the
      point itself. */
  function CutPoint(b: Point4D, A: Point4D, B: Point4D): Point4D {
    ClosestPointOnSegment(b, A, B).(x := b.x, y := b.y)
  }

  function Cut(line: Line, b: Point4D, seg: nat): Point4D
    requires seg + 1 < |line|
  {
    CutPoint(b, line[seg], line[seg + 1])
  }

  /** The ends differ by no more than the tolerance in the plane. */
  predicate Short(A: Point4D, B: Point4D) { FpEquals(A.x, B.x) && FpEquals(A.y, B.y) }

  function Moved(A: Point4D, b: Point4D): Point4D { A.(x := b.x, y := b.y) }

  /** What the cut takes from a segment that is not short. */
  lemma LongCut(b: Point4D, A: Point4D, B: Point4D, r: real)
    requires !Short(A, B) && 0.0 <= r <= 1.0
    requires P2.Dot(XY(b), XY(A), XY(B)) == r*P2.Length2(XY(A), XY(B))
    ensures CutPoint(b, A, B) == Point4D(b.x, b.y, Mix(A.z, B.z, r), Mix(A.m, B.m, r))
  {
    hide P2.Dot, P2.Length2, Mix, Interpolated;
    P2.LengthPositive(XY(A), XY(B));
    QuotientIs(P2.Dot(XY(b), XY(A), XY(B)), P2.Length2(XY(A), XY(B)), r);
    InterpolatedIs(A, B, r);
  }

  lemma InterpolatedIs(A: Point4D, B: Point4D, r: real)
    ensures Interpolated(A, B, r).z == Mix(A.z, B.z, r) && Interpolated(A, B, r).m == Mix(A.m, B.m, r)
  {
    hide Mix;
    Commutes(A.z, B.z, r);
    Commutes(A.m, B.m, r);
  }

  lemma QuotientIs(d: real, l: real, r: real)
    requires l > 0.0 && d == r*l
    ensures d / l == r
  {
    DivideBack(d, l);
    NonZeroFactor(l, d / l - r);
  }

  lemma Commutes(a: real, b: real, r: real)
    ensures a + (b - a)*r == Mix(a, b, r)
  {
  }

  lemma DotOfLerp(A: P2.Point2D, B: P2.Point2D, t: real)
    ensures P2.Dot(P2.Lerp(A, B, t), A, B) == t*P2.Length2(A, B)
  {
    var p := P2.Lerp(A, B, t);
    ScaledInner(B.x - A.x, B.y - A.y, p.x - A.x, p.y - A.y, t);
  }

  lemma ScaledInner(u: real, v: real, x: real, y: real, t: real)
    requires x == t*u && y == t*v
    ensures P2.Inner(x, y, u, v) == t*P2.Norm2(u, v)
  {
  }

  /** An array keeps of the cut what the cut is. */
  lemma CutIsStored(b: Point4D, A: Point4D, B: Point4D, hasz: bool, hasm: bool)
    requires A == Stored(A, hasz, hasm) && B == Stored(B, hasz, hasm)
    ensures CutPoint(b, A, B) == Stored(CutPoint(b, A, B), hasz, hasm) && Flat(CutPoint(b, A, B)) == Flat(b)
  {
    if !Short(A, B) {
      P2.LengthPositive(XY(A), XY(B));
      var r := P2.Dot(XY(b), XY(A), XY(B)) / P2.Length2(XY(A), XY(B));
      NothingAdded(A.z, B.z, r);
      NothingAdded(A.m, B.m, r);
    }
  }

  lemma NothingAdded(a: real, b: real, r: real)
    ensures a == b ==> a + (b - a)*r == a
  {
    if a == b {
      assert b - a == 0.0;
    }
  }

  /** The cut is a point of the segment, Z and M included, exactly when the segment is not
      short, or is cut at its start, or has nothing to interpolate. */
  lemma CutOnSegment(line: Line, b: Point4D, seg: nat)
    requires seg + 1 < |line| && Hits(line, b, seg)
    ensures var (A, B) := (line[seg], line[seg + 1]);
            Cut(line, b, seg) in Seg(A, B) <==> !Short(A, B) || Cut(line, b, seg) == A || (A.z == B.z && A.m == B.m)
  {
    var A, B := line[seg], line[seg + 1];
    var t := HitFraction(line, b, seg);
    EndsOnSegment(A, B);
    OnSegment(A, B, t);
    LerpParts(A, B, t);
    if !Short(A, B) {
      DotOfLerp(XY(A), XY(B), t);
      LongCut(b, A, B, t);
    } else if A.z == B.z && A.m == B.m {
      assert Lerp(A, B, t) == Moved(A, b);
    } else if Moved(A, b) in Seg(A, B) {
      var s :| 0.0 <= s <= 1.0 && Moved(A, b) == Lerp(A, B, s);
      LerpParts(A, B, s);
      assert s == 0.0;
    }
  }

  lemma LerpParts(A: Point4D, B: Point4D, t: real)
    ensures XY(Lerp(A, B, t)) == P2.Lerp(XY(A), XY(B), t)
    ensures A.z == B.z ==> Lerp(A, B, t).z == A.z
    ensures A.m == B.m ==> Lerp(A, B, t).m == A.m
    ensures Lerp(A, B, t).z == A.z && Lerp(A, B, t).m == A.m && (A.z != B.z || A.m != B.m) ==> t == 0.0
  {
    MixStays(A.z, B.z, t);
    MixStays(A.m, B.m, t);
  }

  lemma MixStays(a: real, b: real, t: real)
    ensures Mix(a, b, t) == a <==> a == b || t == 0.0
  {
    if Mix(a, b, t) == a && a != b {
      NonZeroFactor(b - a, t);
    } else if a == b {
      assert b - a == 0.0;
    }
  }

  lemma CutAtStart(b: Point4D, A: Point4D, B: Point4D)
    requires XY(A) == XY(b)
    ensures CutPoint(b, A, B) == A
  {
    if !Short(A, B) {
      P2.EndsOnSegment(XY(A), XY(B));
      DotOfLerp(XY(A), XY(B), 0.0);
      LongCut(b, A, B, 0.0);
      EndsOnSegment(A, B);
    }
  }

  lemma CutAtFinish(b: Point4D, A: Point4D, B: Point4D)
    requires XY(B) == XY(b)
    ensures CutPoint(b, A, B) == if Short(A, B) then Moved(A, b) else B
  {
    if !Short(A, B) {
      P2.EndsOnSegment(XY(A), XY(B));
      DotOfLerp(XY(A), XY(B), 1.0);
      LongCut(b, A, B, 1.0);
      EndsOnSegment(A, B);
    }
  }

  /** The cut counts as the start or the end of the line. */
  predicate AtEnd(line: Line, b: Point4D, seg: nat)
    requires seg + 1 < |line|
  {
    || (seg == |line| - 2 && P4dSame(Cut(line, b, seg), line[seg + 1]))
    || (seg == 0 && P4dSame(Cut(line, b, seg), line[0]))
  }

  predicate Splits(line: Line, b: Point4D) {
    var seg := FirstHit(line, b, 0);
    seg < |line| && !AtEnd(line, b, seg)
  }

  function Head(line: Line, b: Point4D, seg: nat): Line
    requires seg + 1 < |line|
  {
    Appended(Gather([], line[..seg + 1]), Cut(line, b, seg))
  }

  function Tail(line: Line, b: Point4D, seg: nat): Line
    requires seg + 1 < |line|
  {
    Gather([Cut(line, b, seg)], line[seg + 1..])
  }

  lemma {:induction false} GatherPath(acc: Line, pts: Line)
    ensures Path(Gather(acc, pts)) == Path(acc + pts)
    ensures acc + pts != [] ==> Gather(acc, pts) != []
                                && Gather(acc, pts)[|Gather(acc, pts)| - 1] == (acc + pts)[|acc + pts| - 1]
    ensures Gather(acc, pts) == [] ==> acc + pts == []
    decreases |pts|
  {
    if pts == [] {
      assert acc + pts == acc;
    } else {
      var front, p := pts[..|pts| - 1], pts[|pts| - 1];
      GatherPath(acc, front);
      PathAppended(Gather(acc, front), p);
      PathAppend(acc + front, p);
      assert acc + pts == (acc + front) + [p];
    }
  }

  lemma ShadowAppended(pts: Line, p: Point4D)
    ensures Shadow(Appended(pts, p)) == Shadow(pts + [p])
    ensures Shadow(pts + [p]) == if pts == [] then iset{Flat(p)} else Shadow(pts) + Seg(Flat(pts[|pts| - 1]), Flat(p))
  {
    var f := Flatten(pts);
    assert Flatten(pts + [p]) == f + [Flat(p)];
    PathAppend(f, Flat(p));
    PathAppended(f, Flat(p));
  }

  lemma {:induction false} GatherShadow(acc: Line, pts: Line)
    ensures Shadow(Gather(acc, pts)) == Shadow(acc + pts)
    decreases |pts|
  {
    hide Shadow;
    if pts == [] {
      assert acc + pts == acc;
    } else {
      var front, p := pts[..|pts| - 1], pts[|pts| - 1];
      GatherShadow(acc, front);
      GatherPath(acc, front);
      ShadowAppended(Gather(acc, front), p);
      ShadowAppended(acc + front, p);
      assert acc + pts == (acc + front) + [p];
    }
  }

  lemma {:induction false} GatherKeeps(acc: Line, pts: Line)
    ensures acc <= Gather(acc, pts)
    ensures forall p :: p in Gather(acc, pts) <==> p in acc || p in pts
    decreases |pts|
  {
    if pts != [] {
      var front, p := pts[..|pts| - 1], pts[|pts| - 1];
      GatherKeeps(acc, front);
      assert pts == front + [p];
    }
  }

  /** Both pieces hold the vertices of the line and the cut, and nothing else. */
  lemma PiecesHold(line: Line, b: Point4D, seg: nat)
    requires seg + 1 < |line|
    ensures forall p :: p in Head(line, b, seg) || p in Tail(line, b, seg) <==> p in line || p == Cut(line, b, seg)
    ensures Head(line, b, seg) != [] && Tail(line, b, seg) != [] && Tail(line, b, seg)[0] == Cut(line, b, seg)
  {
    hide Gather, Cut;
    GatherKeeps([], line[..seg + 1]);
    GatherKeeps([Cut(line, b, seg)], line[seg + 1..]);
    assert line == line[..seg + 1] + line[seg + 1..];
    assert Cut(line, b, seg) in Head(line, b, seg);
    assert Tail(line, b, seg)[0] == [Cut(line, b, seg)][0];
  }

  lemma PiecesStored(line: Line, b: Point4D, seg: nat, hasz: bool, hasm: bool)
    requires seg + 1 < |line| && IsStored(line, hasz, hasm)
    ensures IsStored(Head(line, b, seg), hasz, hasm) && IsStored(Tail(line, b, seg), hasz, hasm)
  {
    hide Gather, Stored, CutPoint, Head, Tail;
    PiecesHold(line, b, seg);
    CutIsStored(b, line[seg], line[seg + 1], hasz, hasm);
    AllStoredIn(line, hasz, hasm);
    FromStored(Head(line, b, seg), hasz, hasm);
    FromStored(Tail(line, b, seg), hasz, hasm);
  }

  lemma AllStoredIn(line: Line, hasz: bool, hasm: bool)
    requires IsStored(line, hasz, hasm)
    ensures forall p :: p in line ==> p == Stored(p, hasz, hasm)
  {
    hide Stored;
  }

  lemma FromStored(line: Line, hasz: bool, hasm: bool)
    requires forall p :: p in line ==> p == Stored(p, hasz, hasm)
    ensures IsStored(line, hasz, hasm)
  {
    hide Stored;
    forall k | 0 <= k < |line|
      ensures line[k] == Stored(line[k], hasz, hasm)
    {
      assert line[k] in line;
    }
  }

  lemma HeadPath(line: Line, b: Point4D, seg: nat)
    requires seg + 1 < |line|
    ensures Path(Head(line, b, seg)) == Path(line[..seg + 1] + [Cut(line, b, seg)])
    ensures Shadow(Head(line, b, seg)) == Shadow(line[..seg + 1] + [Cut(line, b, seg)])
  {
    hide Cut, Path, Shadow, Gather, Appended;
    GatherClosed(line[..seg + 1], Cut(line, b, seg));
  }

  lemma GatherClosed(before: Line, p: Point4D)
    requires before != []
    ensures Path(Appended(Gather([], before), p)) == Path(before + [p])
    ensures Shadow(Appended(Gather([], before), p)) == Shadow(before + [p])
  {
    hide Path, Seg, Gather, Shadow, Appended;
    var g := Gather([], before);
    GatherPath([], before);
    GatherShadow([], before);
    assert [] + before == before;
    PathAppended(g, p);
    PathAppend(before, p);
    ShadowAppended(g, p);
    ShadowAppended(before, p);
  }

  lemma TailPath(line: Line, b: Point4D, seg: nat)
    requires seg + 1 < |line|
    ensures Path(Tail(line, b, seg)) == Path([Cut(line, b, seg)] + line[seg + 1..])
    ensures Shadow(Tail(line, b, seg)) == Shadow([Cut(line, b, seg)] + line[seg + 1..])
  {
    hide Path, Gather, Shadow, Cut;
    GatherPath([Cut(line, b, seg)], line[seg + 1..]);
    GatherShadow([Cut(line, b, seg)], line[seg + 1..]);
  }

  lemma LinePath(line: Line, seg: nat)
    requires seg + 1 < |line|
    ensures Path(line) == Path(line[..seg + 1]) + Seg(line[seg], line[seg + 1]) + Path(line[seg + 1..])
  {
    hide Path, Seg;
    var before, v, after := line[..seg + 1], line[seg + 1], line[seg + 1..];
    PathAppend(before, v);
    PathConcat(before + [v], after);
    assert before + [v] + after[1..] == line;
  }

  /** Cut at a point of one of its segments a line falls into two that cover it. */
  lemma CutCovers(line: Line, seg: nat, p: Point4D)
    requires seg + 1 < |line| && p in Seg(line[seg], line[seg + 1])
    ensures Path(line[..seg + 1] + [p]) + Path([p] + line[seg + 1..]) == Path(line)
  {
    hide Path, Seg;
    var v, after := line[seg + 1], line[seg + 1..];
    PathAppend(line[..seg + 1], p);
    PathOfPair(p, v);
    PathConcat([p, v], after);
    assert [p, v] + after[1..] == [p] + after;
    LinePath(line, seg);
    SegmentCut(line[seg], line[seg + 1], p);
  }

  /** In the plane the two pieces draw what the line drew; with Z and M they do so if the
      cut is a point of its segment. */
  lemma PiecesCover(line: Line, b: Point4D, seg: nat)
    requires seg + 1 < |line| && Hits(line, b, seg)
    ensures Shadow(Head(line, b, seg)) + Shadow(Tail(line, b, seg)) == Shadow(line)
    ensures Cut(line, b, seg) in Seg(line[seg], line[seg + 1])
            ==> Path(Head(line, b, seg)) + Path(Tail(line, b, seg)) == Path(line)
  {
    hide Path, Seg, Hits, Head, Tail, CutPoint, Shadow;
    HeadPath(line, b, seg);
    TailPath(line, b, seg);
    HitIsOn(line, b, seg);
    CutIsBelow(b, line[seg], line[seg + 1]);
    CutCoversBelow(line, seg, Cut(line, b, seg));
    if Cut(line, b, seg) in Seg(line[seg], line[seg + 1]) {
      CutCovers(line, seg, Cut(line, b, seg));
    }
  }

  lemma CutCoversBelow(line: Line, seg: nat, p: Point4D)
    requires seg + 1 < |line| && Flat(p) in Seg(Flat(line[seg]), Flat(line[seg + 1]))
    ensures Shadow(line[..seg + 1] + [p]) + Shadow([p] + line[seg + 1..]) == Shadow(line)
  {
    hide Path, Seg;
    var f := Flatten(line);
    CutCovers(f, seg, Flat(p));
    assert Flatten(line[..seg + 1] + [p]) == f[..seg + 1] + [Flat(p)];
    assert Flatten([p] + line[seg + 1..]) == [Flat(p)] + f[seg + 1..];
  }

  lemma CutIsBelow(b: Point4D, A: Point4D, B: Point4D)
    ensures Flat(CutPoint(b, A, B)) == Flat(b) && XY(CutPoint(b, A, B)) == XY(b)
  {
  }

  lemma PathOfPair(p: Point4D, v: Point4D)
    ensures Path([p, v]) == Seg(p, v)
  {
    assert [p, v][..1] == [p];
    EndsOnSegment(p, v);
  }

  /** Every edge of the gathered line is an edge of the line it was gathered from. */
  lemma {:induction false} GatheredEdge(pts: Line, k: nat) returns (j: nat)
    requires k + 1 < |Gather([], pts)|
    ensures j + 1 < |pts| && pts[j] == Gather([], pts)[k] && pts[j + 1] == Gather([], pts)[k + 1]
    decreases |pts|
  {
    hide Path;
    var n := |pts| - 1;
    var front := pts[..n];
    var g := Gather([], front);
    assert Gather([], pts) == Appended(g, pts[n]);
    if k + 1 < |g| {
      j := GatheredEdge(front, k);
    } else {
      GatherPath([], front);
      assert [] + front == front;
      j := n - 1;
    }
  }

  lemma SameAsItself(p: Point4D)
    ensures P4dSame(p, p)
  {
  }

  /** The start of a line with no hit, closed by a point above the blade: it is split there
      exactly when its last edge is short and the Z or M found there differs from the
      closing point's. */
  lemma ClosedByHit(before: Line, p: Point4D, b: Point4D)
    requires before != [] && XY(p) == XY(b)
    requires NoHits(before, b)
    ensures var (g, A) := (Gather([], before), before[|before| - 1]);
            var h := Appended(g, p);
            && (Splits(h, b) <==> |g| >= 2 && Short(A, p) && !P4dSame(Moved(A, b), p))
            && (Splits(h, b) ==> FirstHit(h, b, 0) == |g| - 1 && h == g + [p] && g[|g| - 1] == A)
  {
    hide Path, Hits, Gather, CutPoint;
    var g, A := Gather([], before), before[|before| - 1];
    var h := Appended(g, p);
    GatherPath([], before);
    assert [] + before == before;
    NoHitGathered(before, b);
    if A == p {
      SameAsItself(p);
      NoHit(h, b);
    } else {
      var n: nat := |g| - 1;
      forall k: nat | k < n
        ensures !Hits(h, b, k)
      {
        SameEdge(h, k, g, k, b);
      }
      HitAtFinish(h, b, n);
      FirstHitIs(h, b, n);
      CutAtFinish(b, A, p);
      SameAsItself(p);
      if n == 0 && Short(A, p) {
        MovedIsSame(A, b);
      }
    }
  }

  lemma MovedIsSame(A: Point4D, b: Point4D)
    requires Short(A, b)
    ensures P4dSame(Moved(A, b), A)
  {
  }

  lemma HitAtFinish(line: Line, b: Point4D, k: nat)
    requires k + 1 < |line| && XY(line[k + 1]) == XY(b)
    ensures Hits(line, b, k)
  {
    HitIsOn(line, b, k);
    EndsOnSegment(Flat(line[k]), Flat(line[k + 1]));
  }

  lemma HitAtStart(line: Line, b: Point4D, k: nat)
    requires k + 1 < |line| && XY(line[k]) == XY(b)
    ensures Hits(line, b, k)
  {
    HitIsOn(line, b, k);
    EndsOnSegment(Flat(line[k]), Flat(line[k + 1]));
  }

  lemma NoHitGathered(before: Line, b: Point4D)
    requires NoHits(before, b)
    ensures NoHits(Gather([], before), b)
  {
    hide Hits, Gather;
    var g := Gather([], before);
    forall k: nat | k + 1 < |g|
      ensures !Hits(g, b, k)
    {
      var j := GatheredEdge(before, k);
      SameEdge(g, k, before, j, b);
    }
  }

  lemma NoHitBefore(line: Line, b: Point4D)
    requires Splits(line, b)
    ensures var seg := FirstHit(line, b, 0);
            && seg + 1 < |line| && Hits(line, b, seg)
            && NoHits(line[..seg + 1], b)
  {
    hide Hits;
    var seg := FirstHit(line, b, 0);
    var before := line[..seg + 1];
    forall n: nat | n + 1 < |before|
      ensures !Hits(before, b, n)
    {
      SameEdge(before, n, line, n, b);
    }
  }

  lemma TailIsDone(line: Line, b: Point4D, seg: nat)
    requires seg + 1 < |line|
    ensures !Splits(Tail(line, b, seg), b)
  {
    hide Hits, CutPoint;
    var t := Tail(line, b, seg);
    PiecesHold(line, b, seg);
    CutIsBelow(b, line[seg], line[seg + 1]);
    if |t| >= 2 {
      HitAtStart(t, b, 0);
      CutAtStart(b, t[0], t[1]);
      SameAsItself(t[0]);
    }
  }

  /** How often a point splits a line and the pieces it leaves. */
  function Work(line: Line, b: Point4D): nat {
    if !Splits(line, b) then 0 else if Splits(Head(line, b, FirstHit(line, b, 0)), b) then 2 else 1
  }

  /** Once a line is split, the second piece is done with, and the first can be split only
      once more by the same point. */
  lemma SplitsAtMostTwice(line: Line, b: Point4D)
    requires Splits(line, b)
    ensures var seg := FirstHit(line, b, 0);
            && !Splits(Tail(line, b, seg), b)
            && Work(Head(line, b, seg), b) + 1 == Work(line, b)
  {
    hide Hits, Gather, CutPoint;
    var seg := FirstHit(line, b, 0);
    NoHitBefore(line, b);
    TailIsDone(line, b, seg);
    var h := Head(line, b, seg);
    if Splits(h, b) {
      var before := line[..seg + 1];
      var g, A := Gather([], before), line[seg];
      CutIsBelow(b, line[seg], line[seg + 1]);
      ClosedByHit(before, Cut(line, b, seg), b);
      assert h[..|g|] == g;
      NoHitGathered(before, b);
      CutAtFinish(b, A, Cut(line, b, seg));
      CutIsBelow(b, A, Cut(line, b, seg));
      ClosedByHit(g, Moved(A, b), b);
      SameAsItself(Moved(A, b));
    }
  }

  /** The first piece is split again exactly when the segment ahead of the cut is short,
      and its Z or M off the cut's, and it is not all there is. */
  lemma SplitsTwiceWhen(line: Line, b: Point4D)
    requires Splits(line, b)
    ensures var seg := FirstHit(line, b, 0);
            Work(line, b) == 2 <==> && (exists k :: 0 <= k < seg && line[k] != line[seg])
                                    && Short(line[seg], b) && !P4dSame(Moved(line[seg], b), Cut(line, b, seg))
  {
    hide Hits, Gather, CutPoint, Splits;
    var seg := FirstHit(line, b, 0);
    NoHitBefore(line, b);
    CutIsBelow(b, line[seg], line[seg + 1]);
    ClosedByHit(line[..seg + 1], Cut(line, b, seg), b);
    GatheredAlone(line[..seg + 1]);
  }

  /** Some vertex differs from the last. */
  ghost predicate Differs(pts: Line)
    requires pts != []
  {
    exists k :: 0 <= k < |pts| - 1 && pts[k] != pts[|pts| - 1]
  }

  lemma DiffersStep(pts: Line)
    requires |pts| >= 2
    ensures Differs(pts) <==> pts[|pts| - 2] != pts[|pts| - 1] || Differs(pts[..|pts| - 1])
  {
    var n := |pts| - 1;
    var front := pts[..n];
    if pts[n - 1] == pts[n] {
      assert forall k :: 0 <= k < n - 1 ==> (front[k] != front[n - 1] <==> pts[k] != pts[n]);
    }
  }

  lemma {:induction false} GatheredAlone(pts: Line)
    requires pts != []
    ensures Gather([], pts) != [] && (|Gather([], pts)| >= 2 <==> Differs(pts))
    decreases |pts|
  {
    hide Path, Differs;
    var n := |pts| - 1;
    var front := pts[..n];
    GatherPath([], front);
    assert [] + front == front;
    if front != [] {
      GatheredAlone(front);
      DiffersStep(pts);
    } else {
      NoneDiffers(pts);
    }
  }

  lemma NoneDiffers(pts: Line)
    requires |pts| == 1
    ensures !Differs(pts)
  {
  }

  lemma SameEdge(one: Line, k: nat, two: Line, j: nat, b: Point4D)
    requires k + 1 < |one| && j + 1 < |two| && one[k] == two[j] && one[k + 1] == two[j + 1]
    ensures Hits(one, b, k) == Hits(two, b, j)
  {
  }
}
