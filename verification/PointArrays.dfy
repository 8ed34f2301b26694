/** Point arrays: four-dimensional vertices, the polylines they draw, and the growable
    RTPOINTARRAY of src/ptarray.c. */
module PointArrays {
  import opened Convex

  datatype Point4D = Point4D(x: real, y: real, z: real, m: real)

  /** p4d_same. */
  predicate P4dSame(p: Point4D, q: Point4D) {
    FpEquals(p.x, q.x) && FpEquals(p.y, q.y) && FpEquals(p.z, q.z) && FpEquals(p.m, q.m)
  }

  const NO_VALUE := 0.0

  /** What an array with the given dimensions keeps of a point, as read back from it. */
  function Stored(p: Point4D, hasz: bool, hasm: bool): Point4D {
    Point4D(p.x, p.y, if hasz then p.z else NO_VALUE, if hasm then p.m else NO_VALUE)
  }

  lemma StoredTwice(p: Point4D, hasz: bool, hasm: bool)
    ensures Stored(Stored(p, hasz, hasm), hasz, hasm) == Stored(p, hasz, hasm)
  {
  }

  lemma SameStored(p: Point4D, q: Point4D, hasz: bool, hasm: bool)
    requires q == Stored(q, hasz, hasm)
    ensures p.x == q.x && p.y == q.y && (hasz ==> p.z == q.z) && (hasm ==> p.m == q.m) <==> Stored(p, hasz, hasm) == q
  {
  }

  function Reversed<T>(s: seq<T>): (r: seq<T>)
    ensures |r| == |s| && forall i :: 0 <= i < |s| ==> r[i] == s[|s| - 1 - i]
  {
    seq(|s|, i requires 0 <= i < |s| => s[|s| - 1 - i])
  }

  // ---- Point sets ----

  function Mix(a: real, b: real, t: real): real { a + t*(b - a) }

  function Lerp(A: Point4D, B: Point4D, t: real): Point4D {
    Point4D(Mix(A.x, B.x, t), Mix(A.y, B.y, t), Mix(A.z, B.z, t), Mix(A.m, B.m, t))
  }

  ghost function Seg(A: Point4D, B: Point4D): iset<Point4D> {
    iset t: real | 0.0 <= t <= 1.0 :: Lerp(A, B, t)
  }

  /** All points of a polyline: nothing for no vertex, the vertex for a single one. */
  ghost function Path(pts: seq<Point4D>): iset<Point4D> {
    if pts == [] then iset{}
    else if |pts| == 1 then iset{pts[0]}
    else Path(pts[..|pts| - 1]) + Seg(pts[|pts| - 2], pts[|pts| - 1])
  }

  lemma MixNested(a: real, b: real, u: real, v: real, t: real)
    ensures Mix(Mix(a, b, u), Mix(a, b, v), t) == Mix(a, b, u + t*(v - u))
  {
    assert Mix(a, b, v) - Mix(a, b, u) == (v - u)*(b - a);
    assert t*((v - u)*(b - a)) == (t*(v - u))*(b - a);
  }

  lemma LerpNested(A: Point4D, B: Point4D, u: real, v: real, t: real, s: real)
    requires s == u + t*(v - u)
    ensures Lerp(Lerp(A, B, u), Lerp(A, B, v), t) == Lerp(A, B, s)
  {
    hide Mix;
    MixNested(A.x, B.x, u, v, t);
    MixNested(A.y, B.y, u, v, t);
    MixNested(A.z, B.z, u, v, t);
    MixNested(A.m, B.m, u, v, t);
  }

  lemma EndsOnSegment(A: Point4D, B: Point4D)
    ensures Lerp(A, B, 0.0) == A && Lerp(A, B, 1.0) == B
    ensures A in Seg(A, B) && B in Seg(A, B)
  {
  }

  lemma OnSegment(A: Point4D, B: Point4D, t: real)
    requires 0.0 <= t <= 1.0
    ensures Lerp(A, B, t) in Seg(A, B)
  {
  }

  lemma DegenerateSegment(A: Point4D)
    ensures Seg(A, A) == iset{A}
  {
    EndsOnSegment(A, A);
    forall p | p in Seg(A, A)
      ensures p == A
    {
      var t :| 0.0 <= t <= 1.0 && p == Lerp(A, A, t);
    }
  }

  lemma LastOnPath(pts: seq<Point4D>)
    requires pts != []
    ensures pts[|pts| - 1] in Path(pts)
  {
    if |pts| > 1 {
      EndsOnSegment(pts[|pts| - 2], pts[|pts| - 1]);
    }
  }

  lemma PathAppend(pts: seq<Point4D>, p: Point4D)
    ensures Path(pts + [p]) == if pts == [] then iset{p} else Path(pts) + Seg(pts[|pts| - 1], p)
  {
    hide Seg;
    var all := pts + [p];
    assert all[..|pts|] == pts && all[|pts|] == p;
    if pts != [] {
      assert Path(all) == Path(all[..|pts|]) + Seg(all[|pts| - 1], all[|pts|]);
    }
  }

  /** ptarray_append_point without repeated points, on values. */
  function Appended(pts: seq<Point4D>, p: Point4D): seq<Point4D> {
    if pts != [] && pts[|pts| - 1] == p then pts else pts + [p]
  }

  /** The vertices appended one by one, repeated ones once. */
  function Gather(acc: seq<Point4D>, pts: seq<Point4D>): seq<Point4D> {
    if pts == [] then acc else Appended(Gather(acc, pts[..|pts| - 1]), pts[|pts| - 1])
  }

  /** Skipping a repeated vertex does not change the drawn points. */
  lemma PathAppended(pts: seq<Point4D>, p: Point4D)
    ensures Appended(pts, p) != [] && Appended(pts, p)[|Appended(pts, p)| - 1] == p
    ensures Path(Appended(pts, p)) == if pts == [] then iset{p} else Path(pts) + Seg(pts[|pts| - 1], p)
  {
    PathAppend(pts, p);
    if pts != [] && pts[|pts| - 1] == p {
      DegenerateSegment(p);
      LastOnPath(pts);
    }
  }

  // ---- The growable array ----

  class PointArray {
    var points: array<Point4D>
    var npoints: nat
    const hasz: bool
    const hasm: bool
    const readonly: bool

    ghost predicate Valid()
      reads this
    {
      npoints <= points.Length
    }

    /** The vertices, as rt_getPoint4d_p reads them. */
    function Contents(): seq<Point4D>
      reads this, points
      requires Valid()
    {
      points[..npoints]
    }

    /** ptarray_construct_empty; the capacity is the length of the storage. */
    constructor Empty(hasz: bool, hasm: bool, maxpoints: nat)
      ensures Valid() && Contents() == [] && fresh(points)
      ensures this.hasz == hasz && this.hasm == hasm && !readonly && points.Length == maxpoints
    {
      this.hasz, this.hasm, this.readonly := hasz, hasm, false;
      points := new Point4D[maxpoints](_ => Point4D(NO_VALUE, NO_VALUE, NO_VALUE, NO_VALUE));
      npoints := 0;
    }

    method GetPoint4d(n: nat) returns (p: Point4D)
      requires Valid() && n < npoints
      ensures p == Contents()[n]
    {
      p := points[n];
    }

    /** The storage is created, or doubled, when it is full. */
    method MakeRoom()
      requires Valid()
      modifies this
      ensures Valid() && npoints < points.Length && (fresh(points) || points == old(points))
      ensures Contents() == old(Contents())
    {
      if points.Length == 0 {
        points := new Point4D[32](_ => Point4D(NO_VALUE, NO_VALUE, NO_VALUE, NO_VALUE));
        npoints := 0;
      }
      if npoints == points.Length {
        var bigger := new Point4D[points.Length * 2](i requires 0 <= i reads this, points =>
          if i < points.Length then points[i] else Point4D(NO_VALUE, NO_VALUE, NO_VALUE, NO_VALUE));
        points := bigger;
      }
    }

    /** ptarray_insert_point: false for a read-only array or an offset out of range. */
    method InsertPoint(p: Point4D, where: int) returns (ok: bool)
      requires Valid()
      modifies this, points
      ensures Valid() && (fresh(points) || points == old(points))
      ensures ok == (!readonly && 0 <= where <= old(npoints))
      ensures ok ==> Contents() == old(Contents())[..where] + [Stored(p, hasz, hasm)] + old(Contents())[where..]
      ensures !ok ==> Contents() == old(Contents()) && points == old(points)
    {
      if readonly || where > npoints || where < 0 {
        return false;
      }
      hide Stored;
      ghost var s := Contents();
      MakeRoom();
      if where < npoints {
        forall i | where < i <= npoints {
          points[i] := points[i - 1];
        }
      }
      npoints := npoints + 1;
      points[where] := Stored(p, hasz, hasm);
      assert forall k :: 0 <= k < where ==> Contents()[k] == s[k];
      assert forall k :: where < k < npoints ==> Contents()[k] == s[k - 1];
      return true;
    }

    /** ptarray_append_point with RT_FALSE: a repeated end point is not added again, which
        succeeds on a read-only array too. */
    method AppendPoint(p: Point4D) returns (ok: bool)
      requires Valid()
      requires forall q :: q in Contents() ==> q == Stored(q, hasz, hasm)
      modifies this, points
      ensures Valid() && (fresh(points) || points == old(points))
      ensures ok <==> !readonly || Appended(old(Contents()), Stored(p, hasz, hasm)) == old(Contents())
      ensures Contents() == if ok then Appended(old(Contents()), Stored(p, hasz, hasm)) else old(Contents())
      ensures forall q :: q in Contents() ==> q == Stored(q, hasz, hasm)
    {
      hide Stored;
      StoredTwice(p, hasz, hasm);
      if npoints > 0 {
        var tmp := GetPoint4d(npoints - 1);
        assert tmp in Contents();
        SameStored(p, tmp, hasz, hasm);
        if p.x == tmp.x && p.y == tmp.y && (if hasz then p.z == tmp.z else true) && (if hasm then p.m == tmp.m else true) {
          return true;
        }
      }
      assert Contents()[npoints..] == [] && Contents()[..npoints] == Contents();
      ok := InsertPoint(p, npoints);
    }

    /** ptarray_reverse. */
    method Reverse()
      requires Valid()
      modifies points
      ensures Valid() && Contents() == Reversed(old(Contents()))
    {
      var last := npoints as int - 1;
      var mid := npoints / 2;
      ghost var s := Contents();
      for i := 0 to mid
        invariant forall k :: 0 <= k < i || last - i < k <= last ==> points[k] == s[last - k]
        invariant forall k :: i <= k <= last - i ==> points[k] == s[k]
      {
        var pbuf := points[last - i];
        points[last - i] := points[i];
        points[i] := pbuf;
      }
    }
  }
}
