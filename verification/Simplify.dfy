/** Douglas-Peucker simplification with an explicit stack: ptarray_simplify and
    ptarray_dp_findsplit in src/ptarray.c. */
module Simplify {
  import opened Convex
  import P2 = Planar
  import opened PointArrays

  function XY(p: Point4D): P2.Point2D { P2.Point2D(p.x, p.y) }

  /** Squared distance of vertex k from the segment between vertices a and b. */
  function Off(pts: seq<Point4D>, k: int, a: int, b: int): real
    requires 0 <= k < |pts| && 0 <= a < |pts| && 0 <= b < |pts|
  {
    P2.PtSegDist2(XY(pts[k]), XY(pts[a]), XY(pts[b]))
  }

  lemma OffNonNegative(pts: seq<Point4D>, k: int, a: int, b: int)
    requires 0 <= k < |pts| && 0 <= a < |pts| && 0 <= b < |pts|
    ensures Off(pts, k, a, b) >= 0.0
  {
    var q := P2.PtSegDist2Exact(XY(pts[k]), XY(pts[a]), XY(pts[b]));
    P2.Dist2Symmetric(XY(pts[k]), q);
  }

  /** The first of the vertices strictly between p1 and p2 farthest from their segment. */
  method DpFindSplit(pts: seq<Point4D>, p1: int, p2: int) returns (split: int, dist: real)
    requires 0 <= p1 <= p2 < |pts|
    ensures p1 + 1 >= p2 ==> split == p1 && dist == -1.0
    ensures p1 + 1 < p2 ==> p1 < split < p2 && dist == Off(pts, split, p1, p2) >= 0.0
    ensures forall k :: p1 < k < p2 ==> Off(pts, k, p1, p2) <= dist
    ensures forall k :: p1 < k < split ==> Off(pts, k, p1, p2) < dist
  {
    hide Off;
    split := p1;
    var d := -1.0;
    if p1 + 1 < p2 {
      var k := p1 + 1;
      while k < p2
        invariant p1 < k <= p2
        invariant k == p1 + 1 ==> d == -1.0 && split == p1
        invariant k > p1 + 1 ==> p1 < split < k && d == Off(pts, split, p1, p2) >= 0.0
        invariant forall j :: p1 < j < k ==> Off(pts, j, p1, p2) <= d
        invariant forall j :: p1 < j < split ==> Off(pts, j, p1, p2) < d
      {
        var tmp := Off(pts, k, p1, p2);
        OffNonNegative(pts, k, p1, p2);
        if tmp > d {
          d := tmp;
          split := k;
        }
        k := k + 1;
      }
      dist := d;
    } else {
      dist := -1.0;
    }
  }

  // ---- Which vertices are needed ----

  /** s is the first of the vertices strictly between a and b farthest from their segment. */
  ghost predicate FirstFarthest(pts: seq<Point4D>, a: int, s: int, b: int) {
    && 0 <= a < s < b < |pts|
    && (forall k :: a < k < b ==> Off(pts, k, a, b) <= Off(pts, s, a, b))
    && (forall k :: a < k < s ==> Off(pts, k, a, b) < Off(pts, s, a, b))
  }

  /** The farthest of the vertices strictly between a and b that come before k. */
  ghost function FarthestUntil(pts: seq<Point4D>, a: int, b: int, k: int): (s: int)
    requires 0 <= a && a + 1 < k <= b < |pts|
    ensures a < s < k && forall j :: a < j < k ==> Off(pts, j, a, b) <= Off(pts, s, a, b)
    ensures forall j :: a < j < s ==> Off(pts, j, a, b) < Off(pts, s, a, b)
    decreases k - a
  {
    if k == a + 2 then a + 1
    else
      var s := FarthestUntil(pts, a, b, k - 1);
      if Off(pts, k - 1, a, b) > Off(pts, s, a, b) then k - 1 else s
  }

  /** Douglas-Peucker as it is defined: what is put out behind a, up to b. */
  ghost function Simplified(pts: seq<Point4D>, a: int, b: int, eps2: real): seq<int>
    requires 0 <= a <= b < |pts|
    decreases b - a
  {
    if b <= a + 1 then [b]
    else
      var s := FarthestUntil(pts, a, b, b);
      if Off(pts, s, a, b) <= eps2 then [b] else Simplified(pts, a, s, eps2) + Simplified(pts, s, b, eps2)
  }

  lemma FirstIsUnique(pts: seq<Point4D>, a: int, s: int, b: int)
    requires FirstFarthest(pts, a, s, b)
    ensures s == FarthestUntil(pts, a, b, b)
  {
    hide Off;
    var s' := FarthestUntil(pts, a, b, b);
    assert Off(pts, s, a, b) == Off(pts, s', a, b);
  }

  /** When no vertex is farther than epsilon from the segment of the ends, only the ends
      are put out. */
  lemma NearLineIsTwoPoints(pts: seq<Point4D>, last: int, eps2: real)
    requires last == |pts| - 1 > 0 && forall k :: 0 < k < last ==> Off(pts, k, 0, last) <= eps2
    ensures Simplified(pts, 0, last, eps2) == [last]
  {
    hide Off;
  }

  // ---- What the selected vertices mean ----

  ghost predicate Numbers(pts: seq<Point4D>, idx: seq<int>) {
    forall i :: 0 <= i < |idx| ==> 0 <= idx[i] < |pts|
  }

  /** The vertices chosen so far, appended one by one without repetition. */
  ghost function Select(pts: seq<Point4D>, idx: seq<int>): seq<Point4D>
    requires Numbers(pts, idx)
  {
    if idx == [] then [] else Appended(Select(pts, idx[..|idx| - 1]), pts[idx[|idx| - 1]])
  }

  ghost predicate Increasing(idx: seq<int>) {
    forall i, j :: 0 <= i < j < |idx| ==> idx[i] < idx[j]
  }

  /** Strictly increasing vertex numbers from 0 up to last. */
  ghost predicate Selection(pts: seq<Point4D>, idx: seq<int>, last: int) {
    && idx != [] && idx[0] == 0 && idx[|idx| - 1] == last
    && Increasing(idx)
    && Numbers(pts, idx)
  }

  /** Vertex k lies between two neighbours of the selection and within eps2 of their segment. */
  ghost predicate Near(pts: seq<Point4D>, idx: seq<int>, k: int, eps2: real)
    requires 0 <= k < |pts| && Numbers(pts, idx)
  {
    k in idx || exists j {:trigger idx[j]} :: 0 <= j < |idx| - 1 && idx[j] < k < idx[j+1] && Off(pts, k, idx[j], idx[j+1]) <= eps2
  }

  /** The first n vertices are near the selection. */
  ghost predicate AllNear(pts: seq<Point4D>, idx: seq<int>, n: int, eps2: real)
    requires n <= |pts| && Numbers(pts, idx)
  {
    forall k :: 0 <= k < n ==> Near(pts, idx, k, eps2)
  }

  lemma SelectAppend(pts: seq<Point4D>, idx: seq<int>, i: int)
    requires Numbers(pts, idx) && 0 <= i < |pts|
    ensures Numbers(pts, idx + [i])
    ensures Select(pts, idx + [i]) == Appended(Select(pts, idx), pts[i])
  {
    assert (idx + [i])[..|idx|] == idx;
  }

  lemma {:induction false} SelectEnds(pts: seq<Point4D>, idx: seq<int>)
    requires idx != [] && Numbers(pts, idx)
    ensures var s := Select(pts, idx);
            s != [] && |s| <= |idx| && s[0] == pts[idx[0]] && s[|s| - 1] == pts[idx[|idx| - 1]]
  {
    if |idx| > 1 {
      SelectEnds(pts, idx[..|idx| - 1]);
    }
  }

  /** The output is a subsequence of the input. */
  lemma {:induction false} SelectIsSubsequence(pts: seq<Point4D>, idx: seq<int>) returns (js: seq<int>)
    requires Increasing(idx) && Numbers(pts, idx)
    ensures Increasing(js) && Numbers(pts, js) && (forall i :: 0 <= i < |js| ==> js[i] in idx)
    ensures |js| == |Select(pts, idx)| && forall i :: 0 <= i < |js| ==> Select(pts, idx)[i] == pts[js[i]]
  {
    hide Appended;
    if idx == [] {
      js := [];
    } else {
      var init, last := idx[..|idx| - 1], idx[|idx| - 1];
      js := SelectIsSubsequence(pts, init);
      SelectStep(pts, idx);
      forall i | 0 <= i < |js|
        ensures js[i] in idx && js[i] < last
      {
        var k :| 0 <= k < |init| && init[k] == js[i];
        assert idx[k] == js[i];
      }
      if |Select(pts, idx)| > |js| {
        js := js + [last];
      }
    }
  }

  lemma SelectStep(pts: seq<Point4D>, idx: seq<int>)
    requires Numbers(pts, idx) && idx != []
    ensures var before := Select(pts, idx[..|idx| - 1]);
            Select(pts, idx) == before || Select(pts, idx) == before + [pts[idx[|idx| - 1]]]
  {
  }

  /** Without repeated input vertices nothing is dropped again on output. */
  lemma {:induction false} DistinctKeepsAll(pts: seq<Point4D>, idx: seq<int>)
    requires Increasing(idx) && Numbers(pts, idx)
    requires forall i, j :: 0 <= i < j < |pts| ==> pts[i] != pts[j]
    ensures |Select(pts, idx)| == |idx|
  {
    if idx == [] {
    } else {
      var init := idx[..|idx| - 1];
      DistinctKeepsAll(pts, init);
      if init != [] {
        SelectEnds(pts, init);
      }
    }
  }

  /** The j-th chosen vertex equals the one chosen before it. */
  ghost predicate Repeated(pts: seq<Point4D>, idx: seq<int>, j: int)
    requires Numbers(pts, idx) && 0 < j < |idx|
  {
    pts[idx[j-1]] == pts[idx[j]]
  }

  ghost function Repeats(pts: seq<Point4D>, idx: seq<int>): set<int>
    requires Numbers(pts, idx)
  {
    set j | 0 < j < |idx| && Repeated(pts, idx, j)
  }

  lemma RepeatsStep(pts: seq<Point4D>, idx: seq<int>)
    requires Numbers(pts, idx) && |idx| > 1
    ensures var n := |idx| - 1;
            Repeats(pts, idx) == Repeats(pts, idx[..n]) + if Repeated(pts, idx, n) then {n} else {}
  {
    var n := |idx| - 1;
    forall j | 0 < j < n
      ensures Repeated(pts, idx, j) <==> Repeated(pts, idx[..n], j)
    {
    }
  }

  /** The output is shorter than the selection by one vertex for each repetition. */
  lemma {:induction false} SelectLoses(pts: seq<Point4D>, idx: seq<int>)
    requires Numbers(pts, idx)
    ensures |Select(pts, idx)| == |idx| - |Repeats(pts, idx)|
  {
    hide Repeats;
    if |idx| <= 1 {
      FewRepeats(pts, idx);
    } else {
      var n := |idx| - 1;
      SelectLoses(pts, idx[..n]);
      SelectEnds(pts, idx[..n]);
      RepeatsStep(pts, idx);
      NewRepeat(pts, idx[..n], n);
    }
  }

  lemma FewRepeats(pts: seq<Point4D>, idx: seq<int>)
    requires Numbers(pts, idx) && |idx| <= 1
    ensures Repeats(pts, idx) == {}
  {
  }

  lemma NewRepeat(pts: seq<Point4D>, idx: seq<int>, n: int)
    requires Numbers(pts, idx) && n >= |idx|
    ensures n !in Repeats(pts, idx)
  {
  }

  /** Nothing is dropped again on output exactly when no two neighbours of the selection
      are equal. */
  lemma SelectKeepsAll(pts: seq<Point4D>, idx: seq<int>)
    requires Numbers(pts, idx)
    ensures |Select(pts, idx)| == |idx| <==> forall j :: 0 < j < |idx| ==> !Repeated(pts, idx, j)
  {
    hide Select, Numbers, Repeated;
    SelectLoses(pts, idx);
    if forall j :: 0 < j < |idx| ==> !Repeated(pts, idx, j) {
      assert Repeats(pts, idx) == {};
    } else {
      var j :| 0 < j < |idx| && Repeated(pts, idx, j);
      assert j in Repeats(pts, idx);
    }
  }

  ghost predicate NoneRepeated(pts: seq<Point4D>) {
    forall i :: 0 < i < |pts| ==> pts[i-1] != pts[i]
  }

  lemma {:induction false} SelectionClimbs(pts: seq<Point4D>, idx: seq<int>, last: int, i: int)
    requires Selection(pts, idx, last) && 0 <= i < |idx|
    ensures i <= idx[i] <= last - (|idx| - 1 - i)
  {
    var j := 0;
    while j < i
      invariant 0 <= j <= i && j <= idx[j]
    {
      j := j + 1;
    }
    j := |idx| - 1;
    while i < j
      invariant i <= j < |idx| && idx[j] <= last - (|idx| - 1 - j)
    {
      j := j - 1;
    }
  }

  /** A selection as long as the input selects everything, so all vertices come out exactly
      when no two neighbours of the input are equal. */
  lemma AllSelected(pts: seq<Point4D>, idx: seq<int>)
    requires Selection(pts, idx, |pts| - 1) && |idx| >= |pts|
    ensures |idx| == |pts| && forall i :: 0 <= i < |idx| ==> idx[i] == i
    ensures |Select(pts, idx)| == |pts| <==> NoneRepeated(pts)
  {
    SelectionClimbs(pts, idx, |pts| - 1, |idx| - 1);
    forall i | 0 <= i < |idx|
      ensures idx[i] == i
    {
      SelectionClimbs(pts, idx, |pts| - 1, i);
    }
    SelectKeepsAll(pts, idx);
    forall i | 0 < i < |pts|
      ensures Repeated(pts, idx, i) <==> pts[i-1] == pts[i]
    {
    }
  }

  ghost predicate EdgeAt(s: seq<Point4D>, m: int, a: Point4D, b: Point4D) {
    0 <= m < |s| - 1 && s[m] == a && s[m+1] == b
  }

  /** The output polyline runs along the segment between any two neighbours of the
      selection. */
  lemma {:induction false} SelectedSegmentDrawn(pts: seq<Point4D>, idx: seq<int>, j: int)
    requires 0 <= j < |idx| - 1 && Numbers(pts, idx)
    ensures var (s, a, b) := (Select(pts, idx), pts[idx[j]], pts[idx[j+1]]);
            (a == b && a in s) || exists m :: EdgeAt(s, m, a, b)
  {
    var init := idx[..|idx| - 1];
    var s0 := Select(pts, init);
    SelectEnds(pts, init);
    if j == |idx| - 2 {
      var s := Select(pts, idx);
      assert s0[|s0| - 1] == pts[idx[j]] && s[|s0| - 1] == s0[|s0| - 1];
      if pts[idx[j]] != pts[idx[j+1]] {
        var m := |s0| - 1;
        assert EdgeAt(s, m, pts[idx[j]], pts[idx[j+1]]);
      } else {
        assert s[|s0| - 1] in s;
      }
    } else {
      SelectedSegmentDrawn(pts, init, j);
      var s := Select(pts, idx);
      assert forall m :: 0 <= m < |s0| ==> s[m] == s0[m];
      assert forall m, a, b :: EdgeAt(s0, m, a, b) ==> EdgeAt(s, m, a, b);
    }
  }

  ghost function Flat(s: seq<Point4D>): (f: seq<P2.Point2D>)
    ensures |f| == |s| && forall i :: 0 <= i < |s| ==> f[i] == XY(s[i])
  {
    seq(|s|, i requires 0 <= i < |s| => XY(s[i]))
  }

  /** Every vertex near the selection is near the output polyline. */
  lemma NearOutput(pts: seq<Point4D>, idx: seq<int>, last: int, k: int, eps2: real) returns (q: P2.Point2D)
    requires Selection(pts, idx, last) && 0 <= k < |pts| && Near(pts, idx, k, eps2) && eps2 >= 0.0
    ensures q in P2.Path(Flat(Select(pts, idx))) && P2.Dist2(XY(pts[k]), q) <= eps2
  {
    hide P2.Dist2;
    SelectEnds(pts, idx);
    var s := Select(pts, idx);
    if k in idx {
      var j :| 0 <= j < |idx| && idx[j] == k;
      q := XY(pts[k]);
      P2.Dist2Zero(q);
      if j == |idx| - 1 {
        P2.VertexInPath(Flat(s), |s| - 1);
      } else {
        SelectedSegmentDrawn(pts, idx, j);
        var m :| 0 <= m < |s| && s[m] == pts[k];
        P2.VertexInPath(Flat(s), m);
      }
    } else {
      var j :| 0 <= j < |idx| - 1 && idx[j] < k < idx[j+1] && Off(pts, k, idx[j], idx[j+1]) <= eps2;
      var a, b := XY(pts[idx[j]]), XY(pts[idx[j+1]]);
      q := P2.PtSegDist2Exact(XY(pts[k]), a, b);
      SelectedSegmentDrawn(pts, idx, j);
      if pts[idx[j]] == pts[idx[j+1]] {
        P2.DegenerateSegment(a);
        var m :| 0 <= m < |s| && s[m] == pts[idx[j]];
        P2.VertexInPath(Flat(s), m);
      } else {
        var A, B := pts[idx[j]], pts[idx[j+1]];
        var m :| EdgeAt(s, m, A, B);
        P2.EdgeInPath(Flat(s), m);
      }
    }
  }

  /** Every input vertex is near the output polyline. */
  lemma AllNearOutput(pts: seq<Point4D>, idx: seq<int>, last: int, eps2: real)
    requires Selection(pts, idx, last) && AllNear(pts, idx, |pts|, eps2) && eps2 >= 0.0
    ensures Select(pts, idx) != []
    ensures forall k :: 0 <= k < |pts| ==>
              exists q :: q in P2.Path(Flat(Select(pts, idx))) && P2.Dist2(XY(pts[k]), q) <= eps2
  {
    hide Near, P2.Dist2;
    SelectEnds(pts, idx);
    forall k | 0 <= k < |pts|
      ensures exists q :: q in P2.Path(Flat(Select(pts, idx))) && P2.Dist2(XY(pts[k]), q) <= eps2
    {
      var q := NearOutput(pts, idx, last, k, eps2);
    }
  }

  // ---- The algorithm ----

  /** The stack holds the segment ends still to be reached, nearest on top. */
  ghost predicate Stacked(stack: seq<int>, p1: int, n: int) {
    && (stack != [] ==> stack[0] == n - 1)
    && (forall i, j :: 0 <= i < j < |stack| ==> stack[i] > stack[j])
    && (forall i :: 0 <= i < |stack| ==> p1 <= stack[i] < n && (n > 1 ==> p1 < stack[i]))
  }

  lemma StackPush(stack: seq<int>, p1: int, n: int, split: int)
    requires Stacked(stack, p1, n) && stack != [] && p1 < split < stack[|stack| - 1]
    ensures Stacked(stack + [split], p1, n)
  {
  }

  lemma StackPop(stack: seq<int>, p1: int, n: int)
    requires Stacked(stack, p1, n) && stack != []
    ensures Stacked(stack[..|stack| - 1], stack[|stack| - 1], n)
  {
  }

  /** Selecting the next end keeps everything before it near, if what lies between is. */
  lemma NearStep(pts: seq<Point4D>, idx: seq<int>, p1: int, p2: int, eps2: real)
    requires Selection(pts, idx, p1) && p1 < p2 < |pts| && AllNear(pts, idx, p1 + 1, eps2)
    requires forall k :: p1 < k < p2 ==> Off(pts, k, p1, p2) <= eps2
    ensures Selection(pts, idx + [p2], p2) && AllNear(pts, idx + [p2], p2 + 1, eps2)
  {
    hide Off;
    var more := idx + [p2];
    forall k | 0 <= k < p2 + 1
      ensures Near(pts, more, k, eps2)
    {
      if k < p1 + 1 {
        assert Near(pts, idx, k, eps2);
        if k in idx {
          var j :| 0 <= j < |idx| && idx[j] == k;
          assert more[j] == k;
        } else {
          var j :| 0 <= j < |idx| - 1 && idx[j] < k < idx[j+1] && Off(pts, k, idx[j], idx[j+1]) <= eps2;
          assert more[j] == idx[j] && more[j+1] == idx[j+1];
        }
      } else if k == p2 {
        assert more[|idx|] == k;
      } else {
        assert more[|idx| - 1] == p1 && more[|idx| - 1 + 1] == p2;
      }
    }
  }

  /** The output under construction. */
  ghost predicate Open(outpts: PointArray, hasz: bool, hasm: bool)
    reads outpts, outpts.points
  {
    && outpts.Valid() && !outpts.readonly && outpts.hasz == hasz && outpts.hasm == hasm
    && forall q :: q in outpts.Contents() ==> q == Stored(q, hasz, hasm)
  }

  lemma NothingOut(outpts: PointArray, hasz: bool, hasm: bool)
    requires outpts.Valid() && !outpts.readonly && outpts.hasz == hasz && outpts.hasm == hasm
    requires outpts.Contents() == []
    ensures Open(outpts, hasz, hasm)
  {
  }

  method Emit(outpts: PointArray, p: Point4D, hasz: bool, hasm: bool)
    requires outpts.Valid() && Open(outpts, hasz, hasm) && p == Stored(p, hasz, hasm)
    modifies outpts, outpts.points
    ensures outpts.Valid() && Open(outpts, hasz, hasm) && (fresh(outpts.points) || outpts.points == old(outpts.points))
    ensures outpts.Contents() == Appended(old(outpts.Contents()), p)
  {
    var ok := outpts.AppendPoint(p);
  }

  /** A vertex between selected or stacked ones is there because it is the first farthest
      between two of them, and, unless it was forced, farther than epsilon. */
  ghost predicate Wanted(pts: seq<Point4D>, idx: seq<int>, stack: seq<int>, forced: set<int>, eps2: real, s: int) {
    exists a, b :: a in idx && (b in idx || b in stack) && FirstFarthest(pts, a, s, b)
                   && (s in forced || Off(pts, s, a, b) > eps2)
  }

  ghost predicate AllWanted(pts: seq<Point4D>, idx: seq<int>, stack: seq<int>, forced: set<int>, eps2: real) {
    forall s :: (s in idx || s in stack) && 0 < s < |pts| - 1 ==> Wanted(pts, idx, stack, forced, eps2, s)
  }

  /** What is still to be put out from p1 on, by the definition. */
  ghost function Remaining(pts: seq<Point4D>, p1: int, stack: seq<int>, eps2: real): seq<int>
    requires 0 <= p1 < |pts| && Stacked(stack, p1, |pts|)
    decreases |stack|
  {
    if stack == [] then []
    else
      var top := stack[|stack| - 1];
      StackPop(stack, p1, |pts|);
      Simplified(pts, p1, top, eps2) + Remaining(pts, top, stack[..|stack| - 1], eps2)
  }

  lemma RemainingIs(pts: seq<Point4D>, p1: int, rest: seq<int>, top: int, eps2: real)
    requires 0 <= p1 < |pts| && Stacked(rest + [top], p1, |pts|)
    ensures Stacked(rest, top, |pts|) && p1 <= top < |pts|
    ensures Remaining(pts, p1, rest + [top], eps2) == Simplified(pts, p1, top, eps2) + Remaining(pts, top, rest, eps2)
  {
    hide Simplified;
    StackPop(rest + [top], p1, |pts|);
    assert (rest + [top])[..|rest|] == rest;
  }

  lemma RemainingPush(pts: seq<Point4D>, p1: int, stack: seq<int>, s: int, eps2: real)
    requires 0 <= p1 < |pts| && Stacked(stack, p1, |pts|) && stack != []
    requires FirstFarthest(pts, p1, s, stack[|stack| - 1]) && Off(pts, s, p1, stack[|stack| - 1]) > eps2
    ensures Stacked(stack + [s], p1, |pts|)
    ensures Remaining(pts, p1, stack + [s], eps2) == Remaining(pts, p1, stack, eps2)
  {
    hide Off, Simplified, Stacked, Remaining;
    var rest, top := stack[..|stack| - 1], stack[|stack| - 1];
    StackPush(stack, p1, |pts|, s);
    SimplifiedSplits(pts, p1, s, top, eps2);
    assert stack == rest + [top];
    RemainingIs(pts, p1, rest, top, eps2);
    RemainingIs(pts, p1, stack, s, eps2);
    RemainingIs(pts, s, rest, top, eps2);
    SumsRegroup(Simplified(pts, p1, s, eps2), Simplified(pts, s, top, eps2), Remaining(pts, top, rest, eps2));
  }

  lemma SumsRegroup<T>(a: seq<T>, b: seq<T>, c: seq<T>)
    ensures a + (b + c) == a + b + c
  {
  }

  lemma SimplifiedSplits(pts: seq<Point4D>, a: int, s: int, b: int, eps2: real)
    requires FirstFarthest(pts, a, s, b) && Off(pts, s, a, b) > eps2
    ensures Simplified(pts, a, b, eps2) == Simplified(pts, a, s, eps2) + Simplified(pts, s, b, eps2)
  {
    hide Off;
    FirstIsUnique(pts, a, s, b);
  }

  lemma RemainingPop(pts: seq<Point4D>, p1: int, stack: seq<int>, p2: int, eps2: real)
    requires 0 <= p1 < |pts| && 0 <= p2 < |pts| && Stacked(stack, p1, |pts|) && stack != [] && p2 == stack[|stack| - 1]
    requires forall k :: p1 < k < p2 ==> Off(pts, k, p1, p2) <= eps2
    ensures Stacked(stack[..|stack| - 1], p2, |pts|)
    ensures Remaining(pts, p1, stack, eps2) == [p2] + Remaining(pts, p2, stack[..|stack| - 1], eps2)
  {
    hide Off;
    StackPop(stack, p1, |pts|);
  }

  /** With no more than two vertices asked for: what is selected, and what remains by the
      definition, is all that is put out. */
  ghost predicate Follows(pts: seq<Point4D>, idx: seq<int>, stack: seq<int>, p1: int, eps2: real) {
    && 0 <= p1 < |pts| && Stacked(stack, p1, |pts|)
    && (|pts| > 1 ==> idx + Remaining(pts, p1, stack, eps2) == [0] + Simplified(pts, 0, |pts| - 1, eps2))
  }

  /** How many vertices can be forced. */
  ghost predicate FewForced(pts: seq<Point4D>, idx: seq<int>, stack: seq<int>, forced: set<int>, minpts: nat)
    requires Numbers(pts, idx)
  {
    && (minpts <= 2 ==> forced == {})
    && (minpts > 2 ==> |forced| <= minpts - 2 + |Repeats(pts, idx)|)
    && (if |pts| > 1 then |forced| + 2 <= |idx| + |stack| else forced == {})
  }

  /** Nothing is selected without need. */
  ghost predicate Thrifty(pts: seq<Point4D>, idx: seq<int>, stack: seq<int>, p1: int, forced: set<int>, eps2: real, minpts: nat) {
    && Numbers(pts, idx) && AllWanted(pts, idx, stack, forced, eps2)
    && FewForced(pts, idx, stack, forced, minpts)
    && (minpts <= 2 ==> Follows(pts, idx, stack, p1, eps2))
  }

  lemma WantedPush(pts: seq<Point4D>, idx: seq<int>, stack: seq<int>, forced: set<int>, eps2: real, p1: int, s: int,
                   more: set<int>)
    requires AllWanted(pts, idx, stack, forced, eps2) && forced <= more
    requires p1 in idx && stack != [] && FirstFarthest(pts, p1, s, stack[|stack| - 1])
    requires s in more || Off(pts, s, p1, stack[|stack| - 1]) > eps2
    ensures AllWanted(pts, idx, stack + [s], more, eps2)
  {
    hide FirstFarthest, Off;
    var after := stack + [s];
    forall t | (t in idx || t in after) && 0 < t < |pts| - 1
      ensures Wanted(pts, idx, after, more, eps2, t)
    {
      if t == s {
        assert stack[|stack| - 1] in stack;
      } else {
        assert Wanted(pts, idx, stack, forced, eps2, t);
      }
    }
  }

  lemma WantedPop(pts: seq<Point4D>, idx: seq<int>, stack: seq<int>, forced: set<int>, eps2: real)
    requires AllWanted(pts, idx, stack, forced, eps2) && stack != []
    ensures AllWanted(pts, idx + [stack[|stack| - 1]], stack[..|stack| - 1], forced, eps2)
  {
    hide FirstFarthest, Off;
    var n := |stack| - 1;
    var more, rest := idx + [stack[n]], stack[..n];
    assert stack == rest + [stack[n]];
    forall t | (t in more || t in rest) && 0 < t < |pts| - 1
      ensures Wanted(pts, more, rest, forced, eps2, t)
    {
      assert Wanted(pts, idx, stack, forced, eps2, t);
    }
  }

  /** The bound on forced vertices, when one more is. */
  lemma ForcedPush(pts: seq<Point4D>, idx: seq<int>, stack: seq<int>, forced: set<int>, minpts: nat, s: int)
    requires |pts| > 1 && Numbers(pts, idx) && idx != [] && stack != [] && FewForced(pts, idx, stack, forced, minpts)
    requires |Select(pts, idx)| + |stack| < minpts
    ensures minpts > 2 && FewForced(pts, idx, stack + [s], forced + {s}, minpts)
  {
    hide Select, Repeats, Numbers;
    SelectEnds(pts, idx);
    SelectLoses(pts, idx);
  }

  lemma ForcedPop(pts: seq<Point4D>, idx: seq<int>, stack: seq<int>, forced: set<int>, minpts: nat, p2: int)
    requires Numbers(pts, idx) && idx != [] && 0 <= p2 < |pts| && stack != [] && FewForced(pts, idx, stack, forced, minpts)
    ensures Numbers(pts, idx + [p2]) && FewForced(pts, idx + [p2], stack[..|stack| - 1], forced, minpts)
  {
    hide Repeats;
    assert (idx + [p2])[..|idx|] == idx;
    RepeatsStep(pts, idx + [p2]);
    NewRepeat(pts, idx, |idx|);
  }

  lemma ThriftyPush(pts: seq<Point4D>, idx: seq<int>, stack: seq<int>, p1: int, forced: set<int>, eps2: real, minpts: nat,
                    s: int)
    returns (more: set<int>)
    requires Thrifty(pts, idx, stack, p1, forced, eps2, minpts) && p1 in idx && stack != [] && |pts| > 1
    requires FirstFarthest(pts, p1, s, stack[|stack| - 1])
    requires Off(pts, s, p1, stack[|stack| - 1]) > eps2 || |Select(pts, idx)| + |stack| < minpts
    ensures Thrifty(pts, idx, stack + [s], p1, more, eps2, minpts)
  {
    hide AllWanted, Off, Select, Repeats, Numbers, Remaining;
    more := forced;
    if !(Off(pts, s, p1, stack[|stack| - 1]) > eps2) {
      more := forced + {s};
      ForcedPush(pts, idx, stack, forced, minpts, s);
    } else if minpts <= 2 {
      RemainingPush(pts, p1, stack, s, eps2);
    }
    WantedPush(pts, idx, stack, forced, eps2, p1, s, more);
  }

  lemma ThriftyPop(pts: seq<Point4D>, idx: seq<int>, stack: seq<int>, p1: int, forced: set<int>, eps2: real, minpts: nat,
                   p2: int)
    requires Thrifty(pts, idx, stack, p1, forced, eps2, minpts) && idx != [] && stack != [] && |pts| > 1
    requires 0 <= p1 < |pts| && p2 == stack[|stack| - 1] && 0 <= p2 < |pts|
    requires forall k :: p1 < k < p2 ==> Off(pts, k, p1, p2) <= eps2
    ensures Thrifty(pts, idx + [p2], stack[..|stack| - 1], p2, forced, eps2, minpts)
  {
    hide AllWanted, FewForced, Off, Remaining, Numbers;
    WantedPop(pts, idx, stack, forced, eps2);
    ForcedPop(pts, idx, stack, forced, minpts, p2);
    if minpts <= 2 {
      RemainingPop(pts, p1, stack, p2, eps2);
      var rest := Remaining(pts, p2, stack[..|stack| - 1], eps2);
      assert idx + ([p2] + rest) == (idx + [p2]) + rest;
    }
  }

  lemma ThriftyStart(pts: seq<Point4D>, eps2: real, minpts: nat)
    requires pts != []
    ensures Thrifty(pts, [0], [|pts| - 1], 0, {}, eps2, minpts)
  {
    hide Off, Simplified;
    assert [|pts| - 1][..0] == [];
    assert Stacked([|pts| - 1], 0, |pts|);
    if |pts| > 1 {
      assert Remaining(pts, |pts| - 1, [], eps2) == [];
      assert Remaining(pts, 0, [|pts| - 1], eps2) == Simplified(pts, 0, |pts| - 1, eps2) + [];
    }
  }

  /** What the loop keeps: a near selection up to p1, and vertices enough, counting those
      on the stack, unless all are selected. */
  ghost predicate Progress(pts: seq<Point4D>, idx: seq<int>, stack: seq<int>, p1: int, eps2: real, minpts: nat) {
    && 0 <= p1 < |pts| && Stacked(stack, p1, |pts|) && (stack == [] ==> p1 == |pts| - 1)
    && Selection(pts, idx, p1) && AllNear(pts, idx, p1 + 1, eps2)
    && (|idx| == p1 + 1 || |idx| + |stack| >= minpts)
  }

  lemma Pushed(pts: seq<Point4D>, idx: seq<int>, stack: seq<int>, p1: int, split: int, eps2: real, minpts: nat)
    requires Progress(pts, idx, stack, p1, eps2, minpts) && stack != [] && p1 < split < stack[|stack| - 1]
    ensures Progress(pts, idx, stack + [split], p1, eps2, minpts) && |stack| < |pts|
  {
    hide Selection, AllNear;
    StackPush(stack, p1, |pts|, split);
    StackRoom(stack + [split], p1, |pts|);
  }

  /** What one pop of the stack establishes. */
  lemma Popped(pts: seq<Point4D>, idx: seq<int>, stack: seq<int>, p1: int, p2: int, dist: real, eps2: real, minpts: nat)
    returns (more: seq<int>)
    requires Progress(pts, idx, stack, p1, eps2, minpts) && stack != []
    requires p2 == stack[|stack| - 1] && 0 <= p2 < |pts| && dist <= eps2
    requires forall k :: p1 < k < p2 ==> Off(pts, k, p1, p2) <= dist
    requires dist < 0.0 ==> p1 + 1 >= p2
    requires dist >= 0.0 ==> |Select(pts, idx)| + |stack| >= minpts
    ensures more == if |pts| > 1 then idx + [p2] else idx
    ensures && Progress(pts, more, stack[..|stack| - 1], p2, eps2, minpts)
            && Numbers(pts, more) && Select(pts, more) == Appended(Select(pts, idx), pts[p2])
            && (|pts| > 1 ==> p1 < p2)
  {
    hide Off, Near;
    StackRoom(stack, p1, |pts|);
    StackPop(stack, p1, |pts|);
    SelectEnds(pts, idx);
    if |pts| > 1 {
      NearStep(pts, idx, p1, p2, eps2);
      SelectAppend(pts, idx, p2);
      more := idx + [p2];
    } else {
      LoneVertex(pts, idx);
      more := idx;
    }
  }

  lemma ProgressRoom(pts: seq<Point4D>, idx: seq<int>, stack: seq<int>, p1: int, eps2: real, minpts: nat)
    requires Progress(pts, idx, stack, p1, eps2, minpts) && stack != []
    ensures 0 <= p1 <= stack[|stack| - 1] < |pts| && |stack| <= |pts| && Numbers(pts, idx)
    ensures idx != [] && p1 in idx
  {
    StackRoom(stack, p1, |pts|);
  }

  /** The whole invariant of the loop. */
  ghost predicate Ahead(pts: seq<Point4D>, idx: seq<int>, stack: seq<int>, p1: int, forced: set<int>, eps2: real, minpts: nat) {
    && Progress(pts, idx, stack, p1, eps2, minpts)
    && (if |pts| > 1 then Thrifty(pts, idx, stack, p1, forced, eps2, minpts) else forced == {})
  }

  lemma AheadStart(pts: seq<Point4D>, eps2: real, minpts: nat)
    requires pts != []
    ensures Ahead(pts, [0], [|pts| - 1], 0, {}, eps2, minpts)
    ensures Numbers(pts, [0]) && Select(pts, [0]) == Appended([], pts[0])
  {
    hide Progress, Thrifty;
    Start(pts, eps2, minpts);
    ThriftyStart(pts, eps2, minpts);
  }

  lemma AheadRoom(pts: seq<Point4D>, idx: seq<int>, stack: seq<int>, p1: int, forced: set<int>, eps2: real, minpts: nat)
    requires Ahead(pts, idx, stack, p1, forced, eps2, minpts) && stack != []
    ensures 0 <= p1 <= stack[|stack| - 1] < |pts| && |stack| <= |pts|
  {
    hide Progress, Thrifty;
    ProgressRoom(pts, idx, stack, p1, eps2, minpts);
  }

  lemma AheadPush(pts: seq<Point4D>, idx: seq<int>, stack: seq<int>, p1: int, p2: int, split: int, dist: real,
                  forced: set<int>, eps2: real, minpts: nat)
    returns (more: set<int>)
    requires Ahead(pts, idx, stack, p1, forced, eps2, minpts) && Numbers(pts, idx) && stack != [] && p2 == stack[|stack| - 1]
    requires 0 <= p1 < split < p2 < |pts| && dist == Off(pts, split, p1, p2)
    requires forall k :: p1 < k < p2 ==> Off(pts, k, p1, p2) <= dist
    requires forall k :: p1 < k < split ==> Off(pts, k, p1, p2) < dist
    requires dist > eps2 || |Select(pts, idx)| + |stack| < minpts
    ensures Ahead(pts, idx, stack + [split], p1, more, eps2, minpts) && |stack| < |pts|
  {
    hide Progress, Thrifty, Off, Select, Numbers, FirstFarthest;
    ProgressRoom(pts, idx, stack, p1, eps2, minpts);
    IsFirstFarthest(pts, p1, split, p2, dist);
    more := ThriftyPush(pts, idx, stack, p1, forced, eps2, minpts, split);
    Pushed(pts, idx, stack, p1, split, eps2, minpts);
  }

  lemma AheadPop(pts: seq<Point4D>, idx: seq<int>, stack: seq<int>, p1: int, p2: int, dist: real,
                 forced: set<int>, eps2: real, minpts: nat)
    returns (more: seq<int>)
    requires Ahead(pts, idx, stack, p1, forced, eps2, minpts) && Numbers(pts, idx) && stack != []
    requires 0 <= p1 < |pts| && p2 == stack[|stack| - 1] && 0 <= p2 < |pts| && dist <= eps2
    requires forall k :: p1 < k < p2 ==> Off(pts, k, p1, p2) <= dist
    requires dist < 0.0 ==> p1 + 1 >= p2
    requires dist >= 0.0 ==> |Select(pts, idx)| + |stack| >= minpts
    ensures Ahead(pts, more, stack[..|stack| - 1], p2, forced, eps2, minpts)
    ensures Numbers(pts, more) && Select(pts, more) == Appended(Select(pts, idx), pts[p2])
    ensures |pts| > 1 ==> p1 < p2
    ensures |stack| == 1 ==> p2 == |pts| - 1
  {
    hide Thrifty, Off, Select, Numbers, Selection, AllNear, Appended;
    ProgressRoom(pts, idx, stack, p1, eps2, minpts);
    if |pts| > 1 {
      ThriftyPop(pts, idx, stack, p1, forced, eps2, minpts, p2);
    }
    more := Popped(pts, idx, stack, p1, p2, dist, eps2, minpts);
  }

  lemma AheadEnd(pts: seq<Point4D>, idx: seq<int>, stack: seq<int>, p1: int, forced: set<int>, eps2: real, minpts: nat)
    requires Ahead(pts, idx, stack, p1, forced, eps2, minpts) && stack == []
    ensures Selection(pts, idx, |pts| - 1) && AllNear(pts, idx, |pts|, eps2)
    ensures |idx| >= minpts || |idx| == |pts|
    ensures minpts >= |pts| ==> (|Select(pts, idx)| == |pts| <==> NoneRepeated(pts))
    ensures forall s :: s in idx && 0 < s < |pts| - 1 ==>
              exists a, b :: a in idx && b in idx && FirstFarthest(pts, a, s, b) && (s in forced || Off(pts, s, a, b) > eps2)
    ensures |forced| <= if minpts <= 2 then 0 else minpts - 2 + |Repeats(pts, idx)|
    ensures minpts <= 2 && |pts| > 1 ==> idx == [0] + Simplified(pts, 0, |pts| - 1, eps2)
  {
    hide Progress, Thrifty, Off, Select, AllNear, Repeats, Simplified, FirstFarthest;
    Finished(pts, idx, stack, p1, eps2, minpts);
    if |pts| > 1 {
      ThriftyEnd(pts, idx, stack, p1, forced, eps2, minpts);
    }
  }

  /** ptarray_simplify.  The ghost result lists the vertices selected for the output. */
  method SimplifyArray(inpts: seq<Point4D>, hasz: bool, hasm: bool, epsilon: real, minpts: nat)
    returns (outpts: PointArray, ghost idx: seq<int>, ghost forced: set<int>)
    requires |inpts| > 0 && forall p :: p in inpts ==> p == Stored(p, hasz, hasm)
    ensures fresh(outpts) && outpts.Valid()
    ensures Selection(inpts, idx, |inpts| - 1)
    ensures outpts.Contents() == Select(inpts, idx)
    ensures AllNear(inpts, idx, |inpts|, epsilon*epsilon)
    ensures |idx| >= minpts || |idx| == |inpts|
    ensures minpts >= |inpts| ==> (outpts.npoints == |inpts| <==> NoneRepeated(inpts))
    ensures forall s :: s in idx && 0 < s < |inpts| - 1 ==>
              exists a, b :: a in idx && b in idx && FirstFarthest(inpts, a, s, b)
                             && (s in forced || Off(inpts, s, a, b) > epsilon*epsilon)
    ensures |forced| <= if minpts <= 2 then 0 else minpts - 2 + |Repeats(inpts, idx)|
    ensures minpts <= 2 && |inpts| > 1 ==> idx == [0] + Simplified(inpts, 0, |inpts| - 1, epsilon*epsilon)
  {
    hide Off, Select, Stored, Ahead, Increasing, AllNear, FirstFarthest, Repeats, Simplified, Numbers, Appended, Open;
    var n := |inpts|;
    var epsSqr := epsilon*epsilon;
    ghost var square := SquareNonNegative(epsilon);
    var stack := new int[n];
    var sp := -1;
    var p1 := 0;
    sp := sp + 1;
    stack[sp] := n - 1;
    outpts := new PointArray.Empty(hasz, hasm, n);
    NothingOut(outpts, hasz, hasm);
    assert inpts[0] in inpts;
    Emit(outpts, inpts[0], hasz, hasm);
    idx := [0];
    forced := {};
    AheadStart(inpts, epsSqr, minpts);
    ghost var held := [n - 1];
    while true
      invariant 0 <= sp < n && fresh(stack) && fresh(outpts) && fresh(outpts.points) && stack.Length == n
      invariant stack[..sp+1] == held && Numbers(inpts, idx) && Ahead(inpts, idx, held, p1, forced, epsSqr, minpts)
      invariant outpts.Valid() && Open(outpts, hasz, hasm) && outpts.Contents() == Select(inpts, idx)
      decreases n - p1, stack[sp], sp
    {
      AheadRoom(inpts, idx, held, p1, forced, epsSqr, minpts);
      assert stack[sp] == held[sp];
      var split, dist := DpFindSplit(inpts, p1, stack[sp]);
      if dist > epsSqr || (outpts.npoints + sp + 1 < minpts && dist >= 0.0) {
        forced := AheadPush(inpts, idx, held, p1, stack[sp], split, dist, forced, epsSqr, minpts);
        sp := sp + 1;
        stack[sp] := split;
        held := held + [split];
      } else {
        assert inpts[stack[sp]] in inpts;
        idx := AheadPop(inpts, idx, held, p1, stack[sp], dist, forced, epsSqr, minpts);
        Emit(outpts, inpts[stack[sp]], hasz, hasm);
        p1 := stack[sp];
        sp := sp - 1;
        held := held[..|held| - 1];
      }
      if sp < 0 {
        break;
      }
    }
    AheadEnd(inpts, idx, held, p1, forced, epsSqr, minpts);
  }

  lemma IsFirstFarthest(pts: seq<Point4D>, a: int, s: int, b: int, dist: real)
    requires 0 <= a < s < b < |pts| && dist == Off(pts, s, a, b)
    requires forall k :: a < k < b ==> Off(pts, k, a, b) <= dist
    requires forall k :: a < k < s ==> Off(pts, k, a, b) < dist
    ensures FirstFarthest(pts, a, s, b)
  {
    hide Off;
  }

  lemma ThriftyEnd(pts: seq<Point4D>, idx: seq<int>, stack: seq<int>, p1: int, forced: set<int>, eps2: real, minpts: nat)
    requires Thrifty(pts, idx, stack, p1, forced, eps2, minpts) && stack == [] && |pts| > 1
    ensures forall s :: s in idx && 0 < s < |pts| - 1 ==>
              exists a, b :: a in idx && b in idx && FirstFarthest(pts, a, s, b) && (s in forced || Off(pts, s, a, b) > eps2)
    ensures |forced| <= if minpts <= 2 then 0 else minpts - 2 + |Repeats(pts, idx)|
    ensures minpts <= 2 ==> idx == [0] + Simplified(pts, 0, |pts| - 1, eps2)
  {
    hide FirstFarthest, Off, Repeats, Simplified;
    forall s | s in idx && 0 < s < |pts| - 1
      ensures exists a, b :: a in idx && b in idx && FirstFarthest(pts, a, s, b) && (s in forced || Off(pts, s, a, b) > eps2)
    {
      assert Wanted(pts, idx, stack, forced, eps2, s);
    }
    if minpts <= 2 {
      assert Follows(pts, idx, stack, p1, eps2);
      assert idx + [] == idx;
    }
  }

  lemma Finished(pts: seq<Point4D>, idx: seq<int>, stack: seq<int>, p1: int, eps2: real, minpts: nat)
    requires Progress(pts, idx, stack, p1, eps2, minpts) && stack == []
    ensures Selection(pts, idx, |pts| - 1) && AllNear(pts, idx, |pts|, eps2)
    ensures |idx| >= minpts || |idx| == |pts|
    ensures minpts >= |pts| ==> (|Select(pts, idx)| == |pts| <==> NoneRepeated(pts))
  {
    hide AllNear, Select;
    if minpts >= |pts| {
      AllSelected(pts, idx);
    }
  }

  /** With repeated vertices the minimum can be missed: of two equal points one is left,
      although two are asked for. */
  method RepeatedVertexLost(p: Point4D, hasz: bool, hasm: bool, epsilon: real) returns (outpts: PointArray)
    requires p == Stored(p, hasz, hasm)
    ensures outpts.Valid() && outpts.Contents() == [p]
  {
    hide Select, Off;
    ghost var idx, forced;
    outpts, idx, forced := SimplifyArray([p, p], hasz, hasm, epsilon, 2);
    SelectEnds([p, p], idx);
    AllSelected([p, p], idx);
    assert [p, p][0] == [p, p][1];
  }

  lemma Start(pts: seq<Point4D>, eps2: real, minpts: nat)
    requires pts != []
    ensures Progress(pts, [0], [|pts| - 1], 0, eps2, minpts)
    ensures Numbers(pts, [0]) && Select(pts, [0]) == Appended([], pts[0])
  {
    assert [0][..0] == [];
    assert Select(pts, []) == [];
    assert [0][0] == 0;
  }

  /** The input array of a single vertex: the end is the start. */
  lemma LoneVertex(pts: seq<Point4D>, idx: seq<int>)
    requires |pts| == 1 && Selection(pts, idx, 0)
    ensures Appended(Select(pts, idx), pts[0]) == Select(pts, idx) && |idx| == 1
  {
    SelectEnds(pts, idx);
  }

  /** The stack never needs more room than there are vertices. */
  lemma {:induction false} StackRoom(stack: seq<int>, p1: int, n: int)
    requires Stacked(stack, p1, n) && stack != []
    ensures p1 <= stack[|stack| - 1] <= n - |stack| && (n > 1 ==> p1 < stack[|stack| - 1])
    ensures stack[0] == n - 1
  {
    if |stack| > 1 {
      StackPop(stack, p1, n);
      StackRoom(stack[..|stack| - 1], stack[|stack| - 1], n);
    }
  }
}
