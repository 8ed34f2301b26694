/** Positions along a line, and what a stretch of it looks like as a line of its own. */
module Tracing {
  import opened Convex
  import opened PointArrays

  /** The point at a position: the number of an edge plus the fraction of the way along it. */
  ghost function PointAt(line: seq<Point4D>, x: real): Point4D
    requires 0.0 <= x <= |line| as real - 1.0
  {
    var k := x.Floor;
    if k == |line| - 1 then line[k] else Lerp(line[k], line[k + 1], x - k as real)
  }

  lemma AtEdge(line: seq<Point4D>, k: nat, t: real)
    requires k + 1 < |line| && 0.0 <= t <= 1.0
    ensures 0.0 <= k as real + t <= |line| as real - 1.0
    ensures PointAt(line, k as real + t) == Lerp(line[k], line[k + 1], t)
  {
    hide Lerp;
    var x := k as real + t;
    EndsOnSegment(line[k], line[k + 1]);
    if t < 1.0 {
      assert x.Floor == k;
    } else {
      assert x.Floor == k + 1;
      if k + 2 < |line| {
        EndsOnSegment(line[k + 1], line[k + 2]);
      }
    }
  }

  lemma AtVertex(line: seq<Point4D>, k: nat)
    requires k < |line|
    ensures PointAt(line, k as real) == line[k]
  {
    hide Lerp;
    assert (k as real).Floor == k;
    if k + 1 < |line| {
      EndsOnSegment(line[k], line[k + 1]);
    }
  }

  function Ceil(x: real): int { -((-x).Floor) }

  /** A stretch of a line, from one position to another. */
  datatype Span = Span(lo: real, hi: real)

  ghost predicate SpanOf(line: seq<Point4D>, s: Span) {
    0.0 <= s.lo <= s.hi <= |line| as real - 1.0
  }

  /** The start, and the vertices up to number i, repeated ones once. */
  ghost function Run(line: seq<Point4D>, lo: real, i: nat): seq<Point4D>
    requires 0.0 <= lo <= |line| as real - 1.0 && Ceil(lo) <= i <= |line|
  {
    Gather([PointAt(line, lo)], line[Ceil(lo)..i])
  }

  /** A stretch as a line: its start, the vertices on it, its end, repeated points once. */
  ghost function Stretch(line: seq<Point4D>, s: Span): seq<Point4D>
    requires SpanOf(line, s)
  {
    Appended(Run(line, s.lo, s.hi.Floor + 1), PointAt(line, s.hi))
  }

  lemma RunStep(line: seq<Point4D>, lo: real, i: nat)
    requires 0.0 <= lo <= |line| as real - 1.0 && Ceil(lo) <= i < |line|
    ensures Run(line, lo, i + 1) == Appended(Run(line, lo, i), line[i])
  {
    hide Appended;
    var c := Ceil(lo);
    assert line[c..i + 1][..i - c] == line[c..i];
  }

  lemma RunStart(line: seq<Point4D>, lo: real, i: nat)
    requires 0.0 <= lo <= |line| as real - 1.0 && Ceil(lo) == i < |line|
    ensures Run(line, lo, i + 1) == Appended([PointAt(line, lo)], line[i])
  {
    hide Appended;
    RunStep(line, lo, i);
    assert line[i..i] == [];
  }

  lemma {:induction false} RunEnds(line: seq<Point4D>, lo: real, i: nat)
    requires 0.0 <= lo <= |line| as real - 1.0 && Ceil(lo) < i <= |line|
    ensures Run(line, lo, i) != [] && Run(line, lo, i)[|Run(line, lo, i)| - 1] == line[i - 1]
    ensures Run(line, lo, i)[0] == PointAt(line, lo)
    decreases i
  {
    hide PointAt;
    RunStep(line, lo, i - 1);
    if Ceil(lo) < i - 1 {
      RunEnds(line, lo, i - 1);
    } else {
      assert line[i - 1..i - 1] == [];
    }
  }

  /** Every vertex of a part has its position on the line, from lo on, up to hi at most, and
      positions increase strictly. */
  ghost predicate Positions(line: seq<Point4D>, at: seq<real>, pts: seq<Point4D>, lo: real, hi: real) {
    && |at| == |pts| && at != [] && 0.0 <= at[0] == lo && at[|at| - 1] <= hi <= |line| as real - 1.0
    && (forall j, k :: 0 <= j < k < |at| ==> at[j] < at[k])
    && (forall j :: 0 <= j < |at| ==> 0.0 <= at[j] <= |line| as real - 1.0 && PointAt(line, at[j]) == pts[j])
  }

  lemma PositionsAppend(line: seq<Point4D>, at: seq<real>, pts: seq<Point4D>, lo: real, hi: real, x: real) returns (more: seq<real>)
    requires Positions(line, at, pts, lo, hi) && hi <= x <= |line| as real - 1.0 && 0.0 <= x
    ensures Positions(line, more, Appended(pts, PointAt(line, x)), lo, x)
  {
    hide PointAt;
    var n := |at| - 1;
    assert forall j :: 0 <= j < n ==> at[j] < at[n];
    if pts[n] == PointAt(line, x) {
      more := at;
    } else {
      assert at[n] != x;
      more := at + [x];
    }
  }

  function Later(a: real, b: real): real { if a > b then a else b }

  lemma {:induction false} RunPositions(line: seq<Point4D>, lo: real, i: nat) returns (at: seq<real>)
    requires 0.0 <= lo <= |line| as real - 1.0 && Ceil(lo) <= i <= |line|
    ensures Positions(line, at, Run(line, lo, i), lo, Later(lo, i as real - 1.0))
    decreases i
  {
    hide PointAt, Positions, Run, Appended;
    if i == Ceil(lo) {
      at := [lo];
      RunOfNone(line, lo);
      StartPosition(line, lo);
    } else {
      at := RunPositions(line, lo, i - 1);
      RunStep(line, lo, i - 1);
      AtVertex(line, i - 1);
      at := PositionsAppend(line, at, Run(line, lo, i - 1), lo, Later(lo, i as real - 2.0), i as real - 1.0);
    }
  }

  lemma RunOfNone(line: seq<Point4D>, lo: real)
    requires 0.0 <= lo <= |line| as real - 1.0
    ensures Run(line, lo, Ceil(lo)) == [PointAt(line, lo)] && Later(lo, Ceil(lo) as real - 1.0) == lo
  {
    hide PointAt;
    assert line[Ceil(lo)..Ceil(lo)] == [];
  }

  lemma StartPosition(line: seq<Point4D>, lo: real)
    requires 0.0 <= lo <= |line| as real - 1.0
    ensures Positions(line, [lo], [PointAt(line, lo)], lo, lo)
  {
  }

  lemma StretchPositions(line: seq<Point4D>, s: Span) returns (at: seq<real>)
    requires SpanOf(line, s)
    ensures Positions(line, at, Stretch(line, s), s.lo, s.hi)
  {
    hide PointAt, Run, Positions;
    var i := s.hi.Floor + 1;
    at := RunPositions(line, s.lo, i);
    at := PositionsAppend(line, at, Run(line, s.lo, i), s.lo, Later(s.lo, i as real - 1.0), s.hi);
  }

  // ---- Lines that run along a line ----

  /** The positions at which a vertex is reached and left; between them the line stays. */
  datatype Stay = Stay(arr: real, dep: real)

  /** Two positions on one edge, the first before the second. */
  predicate OnOneEdge(a: real, b: real) { a < b <= a.Floor as real + 1.0 }

  predicate Joins(a: real, b: real) { a == b || OnOneEdge(a, b) }

  ghost predicate StaysAt(line: seq<Point4D>, p: Point4D, s: Stay) {
    && 0.0 <= s.arr <= s.dep <= |line| as real - 1.0
    && forall x :: s.arr <= x <= s.dep ==> PointAt(line, x) == p
  }

  /** The vertices lie on the line one after the other, and each edge of theirs is a piece of
      one edge of the line, in its direction. */
  ghost predicate Along(line: seq<Point4D>, pts: seq<Point4D>, at: seq<Stay>) {
    && |at| == |pts| > 0
    && (forall k :: 0 <= k < |at| ==> StaysAt(line, pts[k], at[k]))
    && (forall k :: 0 < k < |at| ==> OnOneEdge(at[k-1].dep, at[k].arr))
  }

  /** From its first position to its last. */
  function Reach(at: seq<Stay>): Span
    requires at != []
  {
    Span(at[0].arr, at[|at| - 1].dep)
  }

  lemma EdgeIsStraight(line: seq<Point4D>, a: real, b: real, t: real, x: real)
    requires 0.0 <= a && b <= |line| as real - 1.0 && OnOneEdge(a, b) && 0.0 <= t <= 1.0
    requires x == a + t*(b - a) && a <= x <= b
    ensures PointAt(line, x) == Lerp(PointAt(line, a), PointAt(line, b), t)
  {
    hide Lerp, PointAt, OnOneEdge;
    var k := EdgeNumber(line, a, b);
    FractionStep(a, b, k as real, t, x);
    OnEdge(line, k, a);
    OnEdge(line, k, b);
    OnEdge(line, k, x);
    LerpNested(line[k], line[k+1], a - k as real, b - k as real, t, x - k as real);
  }

  lemma OnEdge(line: seq<Point4D>, k: nat, x: real)
    requires k + 1 < |line| && k as real <= x <= k as real + 1.0
    ensures 0.0 <= x <= |line| as real - 1.0 && PointAt(line, x) == Lerp(line[k], line[k+1], x - k as real)
  {
    hide Lerp, PointAt;
    AtEdge(line, k, x - k as real);
    assert k as real + (x - k as real) == x;
  }

  lemma EdgeNumber(line: seq<Point4D>, a: real, b: real) returns (k: nat)
    requires 0.0 <= a && b <= |line| as real - 1.0 && OnOneEdge(a, b)
    ensures k + 1 < |line| && k as real <= a < b <= k as real + 1.0
  {
    k := a.Floor;
  }

  lemma FractionStep(a: real, b: real, k: real, t: real, x: real)
    requires 0.0 <= t <= 1.0 && k <= a < b <= k + 1.0 && x == a + t*(b - a)
    ensures x - k == (a - k) + t*((b - k) - (a - k))
  {
  }

  /** Between two positions with one point on one edge the line stays. */
  lemma StaysBetween(line: seq<Point4D>, a: real, b: real)
    requires 0.0 <= a && b <= |line| as real - 1.0 && OnOneEdge(a, b) && PointAt(line, a) == PointAt(line, b)
    ensures StaysAt(line, PointAt(line, a), Stay(a, b))
  {
    hide PointAt, Lerp;
    forall x | a <= x <= b
      ensures PointAt(line, x) == PointAt(line, a)
    {
      var t := UnitQuotient(x - a, b - a);
      EdgeIsStraight(line, a, b, t, x);
      DegenerateSegment(PointAt(line, a));
      OnSegment(PointAt(line, a), PointAt(line, a), t);
    }
  }

  lemma StayGrows(line: seq<Point4D>, p: Point4D, s: Stay, s': Stay)
    requires StaysAt(line, p, s) && StaysAt(line, p, s') && Joins(s.dep, s'.arr)
    ensures StaysAt(line, p, Stay(s.arr, s'.dep))
  {
    hide PointAt;
    if s.dep < s'.arr {
      StaysBetween(line, s.dep, s'.arr);
    }
  }

  /** One vertex more, unless it repeats the last. */
  lemma AlongAppend(line: seq<Point4D>, pts: seq<Point4D>, at: seq<Stay>, p: Point4D, s: Stay) returns (more: seq<Stay>)
    requires Along(line, pts, at) && StaysAt(line, p, s) && Joins(Reach(at).hi, s.arr)
    ensures Along(line, Appended(pts, p), more) && Reach(more) == Span(Reach(at).lo, s.dep)
  {
    hide PointAt, StaysAt;
    var n := |at| - 1;
    if at[n].dep == s.arr {
      StayEnds(line, pts[n], at[n]);
      StayEnds(line, p, s);
    }
    if pts[n] == p {
      StayGrows(line, p, at[n], s);
      more := at[n := Stay(at[n].arr, s.dep)];
    } else {
      more := at + [s];
    }
  }

  lemma StayEnds(line: seq<Point4D>, p: Point4D, s: Stay)
    requires StaysAt(line, p, s)
    ensures 0.0 <= s.arr <= s.dep <= |line| as real - 1.0 && PointAt(line, s.arr) == p && PointAt(line, s.dep) == p
  {
  }

  /** The vertices of one line appended to another where that ends. */
  lemma {:induction false} AlongGather(line: seq<Point4D>, acc: seq<Point4D>, accAt: seq<Stay>, pts: seq<Point4D>, at: seq<Stay>)
    returns (all: seq<Stay>)
    requires Along(line, acc, accAt) && |pts| == |at|
    requires pts != [] ==> Along(line, pts, at) && Joins(Reach(accAt).hi, at[0].arr)
    ensures Along(line, Gather(acc, pts), all)
    ensures Reach(all) == Span(Reach(accAt).lo, if pts == [] then Reach(accAt).hi else Reach(at).hi)
    decreases |pts|
  {
    hide StaysAt, OnOneEdge, Appended;
    if pts == [] {
      all := accAt;
    } else {
      var n := |pts| - 1;
      if n > 0 {
        AlongFront(line, pts, at, n);
      }
      all := AlongGather(line, acc, accAt, pts[..n], at[..n]);
      all := AlongAppend(line, Gather(acc, pts[..n]), all, pts[n], at[n]);
    }
  }

  lemma AlongSize(line: seq<Point4D>, pts: seq<Point4D>, at: seq<Stay>)
    requires Along(line, pts, at)
    ensures |at| == |pts| > 0
  {
  }

  lemma AlongFront(line: seq<Point4D>, pts: seq<Point4D>, at: seq<Stay>, n: nat)
    requires Along(line, pts, at) && 0 < n <= |pts|
    ensures Along(line, pts[..n], at[..n])
  {
    hide StaysAt, OnOneEdge;
  }

  lemma AlongBack(line: seq<Point4D>, pts: seq<Point4D>, at: seq<Stay>, n: nat)
    requires Along(line, pts, at) && n < |pts|
    ensures Along(line, pts[n..], at[n..]) && Reach(at[n..]).hi == Reach(at).hi
  {
    hide StaysAt, OnOneEdge;
    var rest := at[n..];
    forall k | 0 < k < |rest|
      ensures OnOneEdge(rest[k-1].dep, rest[k].arr)
    {
      assert rest[k-1] == at[n + k - 1] && rest[k] == at[n + k];
    }
  }

  lemma {:induction false} GatherFromFirst(pts: seq<Point4D>)
    requires pts != []
    ensures Gather([], pts) == Gather([pts[0]], pts[1..])
    decreases |pts|
  {
    var n := |pts| - 1;
    if n > 0 {
      GatherFromFirst(pts[..n]);
      assert pts[1..][..n - 1] == pts[..n][1..];
    }
  }

  /** The line runs along itself. */
  lemma SelfAlong(line: seq<Point4D>) returns (at: seq<Stay>)
    requires line != []
    ensures Along(line, line, at) && Reach(at) == Span(0.0, |line| as real - 1.0)
  {
    hide PointAt;
    at := seq(|line|, k requires 0 <= k < |line| => Stay(k as real, k as real));
    forall k | 0 <= k < |line|
      ensures StaysAt(line, line[k], at[k])
    {
      AtVertex(line, k);
    }
    forall k | 0 < k < |line|
      ensures OnOneEdge(at[k-1].dep, at[k].arr)
    {
    }
  }
}
