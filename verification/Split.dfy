/** Splitting a line at points (src/rtgeom_geos_split.c). */
module Split {
  import opened Convex
  import opened PointArrays
  import opened Cutting
  import opened Tracing
  import P2 = Planar

  // ---- The collection of pieces ----

  class MLine {
    const hasz: bool
    const hasm: bool
    var geoms: seq<Line>

    constructor Empty(hasz: bool, hasm: bool)
      ensures geoms == [] && this.hasz == hasz && this.hasm == hasm
    {
      this.hasz, this.hasm := hasz, hasm;
      geoms := [];
    }

    method Add(line: Line)
      modifies this
      ensures geoms == old(geoms) + [line]
    {
      geoms := geoms + [line];
    }
  }

  /** A point array under construction that keeps what it is given. */
  ghost predicate Open(pa: PointArray)
    reads pa, pa.points
  {
    pa.Valid() && !pa.readonly && forall q :: q in pa.Contents() ==> q == Stored(q, pa.hasz, pa.hasm)
  }

  method AppendVertex(pa: PointArray, p: Point4D)
    requires pa.Valid() && Open(pa) && p == Stored(p, pa.hasz, pa.hasm)
    modifies pa, pa.points
    ensures pa.Valid() && Open(pa) && (fresh(pa.points) || pa.points == old(pa.points))
    ensures pa.Contents() == Appended(old(pa.Contents()), p)
  {
    hide Stored;
    var _ := pa.AppendPoint(p);
  }

  /** The vertices from `from` to `to` appended to a point array, without repeated points. */
  method AppendVertices(pa: PointArray, line: Line, from: nat, to: nat)
    requires pa.Valid() && Open(pa) && IsStored(line, pa.hasz, pa.hasm) && from <= to <= |line|
    modifies pa, pa.points
    ensures pa.Valid() && Open(pa) && (fresh(pa.points) || pa.points == old(pa.points))
    ensures pa.Contents() == Gather(old(pa.Contents()), line[from..to])
  {
    hide Stored, Open, Appended;
    ghost var start := pa.Contents();
    for i := from to to
      invariant pa.Valid() && Open(pa) && (fresh(pa.points) || pa.points == old(pa.points))
      invariant pa.Contents() == Gather(start, line[from..i])
    {
      AppendVertex(pa, line[i]);
      GatherStep(start, line, from, i);
    }
  }

  lemma GatherStep(acc: Line, line: Line, from: nat, i: nat)
    requires from <= i < |line|
    ensures Gather(acc, line[from..i + 1]) == Appended(Gather(acc, line[from..i]), line[i])
  {
    assert line[from..i + 1][..i - from] == line[from..i];
  }

  method Opened(hasz: bool, hasm: bool, maxpoints: nat) returns (pa: PointArray)
    ensures fresh(pa) && fresh(pa.points) && pa.Valid() && Open(pa) && pa.Contents() == []
    ensures pa.hasz == hasz && pa.hasm == hasm
  {
    pa := new PointArray.Empty(hasz, hasm, maxpoints);
  }

  /** The vertices before the cut, and the cut, in a new array. */
  method HeadArray(line: Line, to: nat, p: Point4D, maxpoints: nat, hasz: bool, hasm: bool)
    returns (pts: Line)
    requires IsStored(line, hasz, hasm) && to <= |line| && p == Stored(p, hasz, hasm)
    ensures pts == Appended(Gather([], line[..to]), p)
  {
    hide Gather, Stored, IsStored, Appended, Open;
    var pa := Opened(hasz, hasm, maxpoints);
    AppendVertices(pa, line, 0, to);
    assert line[0..to] == line[..to];
    AppendVertex(pa, p);
    pts := pa.Contents();
  }

  /** The cut, and the vertices behind it, in a new array. */
  method TailArray(line: Line, from: nat, p: Point4D, maxpoints: nat, hasz: bool, hasm: bool) returns (pts: Line)
    requires IsStored(line, hasz, hasm) && from <= |line| && p == Stored(p, hasz, hasm)
    ensures pts == Gather([p], line[from..])
  {
    hide Gather, Stored, IsStored, Open;
    var pa := Opened(hasz, hasm, maxpoints);
    AppendVertex(pa, p);
    assert pa.Contents() == [p];
    AppendVertices(pa, line, from, |line|);
    assert line[from..|line|] == line[from..];
    pts := pa.Contents();
  }

  /** The part up to the cut and the part behind it, as new lines of the collection. */
  method AddPieces(line: Line, blade: Point4D, seg: nat, projected: Point4D, v: MLine)
    requires IsStored(line, v.hasz, v.hasm) && seg + 1 < |line| && projected == Cut(line, blade, seg)
    requires projected == Stored(projected, v.hasz, v.hasm)
    modifies v
    ensures v.geoms == old(v.geoms) + [Head(line, blade, seg), Tail(line, blade, seg)]
  {
    hide Gather, Stored, IsStored, Cut, Open;
    var head := HeadArray(line, seg + 1, projected, seg + 2, v.hasz, v.hasm);
    v.Add(head);
    var tail := TailArray(line, seg + 1, projected, |line| - seg, v.hasz, v.hasm);
    v.Add(tail);
  }

  /** rtline_split_by_point_to: 0 when the point is not on the line, 1 when it counts as
      an end of it, 2 when the line was cut there and both pieces were added. */
  method SplitByPointTo(line: Line, blade: Point4D, v: MLine) returns (r: int)
    requires IsStored(line, v.hasz, v.hasm)
    modifies v
    ensures r == 0 <==> |line| >= 2 && Flat(blade) !in Shadow(line)
    ensures r == 2 <==> Splits(line, blade)
    ensures r in {0, 1, 2}
    ensures r == 2 ==> var seg := FirstHit(line, blade, 0);
                       v.geoms == old(v.geoms) + [Head(line, blade, seg), Tail(line, blade, seg)]
    ensures r != 2 ==> v.geoms == old(v.geoms)
  {
    hide Shadow, P2.PtSegDist2, ClosestPointOnSegment, Gather;
    var mindist, seg := ClosestSegment(line, blade);
    if |line| >= 2 {
      OnPathIsHit(line, blade);
    }
    if mindist > 0.0 {
      return 0;
    }
    if seg < 0 {
      return 1;
    }
    var p1, p2 := line[seg], line[seg + 1];
    var projected := ClosestPointOnSegment(blade, p1, p2);
    projected := projected.(x := blade.x, y := blade.y);
    CutIsStored(blade, p1, p2, v.hasz, v.hasm);
    if (seg == |line| - 2 && P4dSame(projected, p2)) || (seg == 0 && P4dSame(projected, p1)) {
      return 1;
    }
    AddPieces(line, blade, seg, projected, v);
    return 2;
  }

  /** The first segment at the least distance, with the square of that distance; -1 twice
      when there is no segment. */
  method ClosestSegment(line: Line, blade: Point4D) returns (mindist: real, seg: int)
    ensures |line| < 2 ==> mindist == -1.0 && seg == -1 && FirstHit(line, blade, 0) == |line|
    ensures |line| >= 2 ==> 0 <= seg && seg + 1 < |line|
    ensures |line| >= 2 ==> if mindist > 0.0 then FirstHit(line, blade, 0) == |line| else FirstHit(line, blade, 0) == seg
    ensures |line| >= 2 ==> mindist == Gap(line, blade, seg)
                            && (forall k: nat :: k + 1 < |line| ==> mindist <= Gap(line, blade, k))
                            && (forall k: nat :: k < seg ==> mindist < Gap(line, blade, k))
  {
    hide Gap;
    mindist, seg := -1.0, -1;
    var i := 0;
    while i + 1 < |line|
      invariant 0 <= i && if |line| == 0 then i == 0 else i < |line|
      invariant i == 0 ==> mindist == -1.0 && seg == -1
      invariant i > 0 ==> 0 <= seg < i && mindist == Gap(line, blade, seg) > 0.0
      invariant forall k: nat :: k < i ==> mindist <= Gap(line, blade, k)
      invariant forall k: nat :: k < seg ==> mindist < Gap(line, blade, k)
      invariant forall k: nat :: k < i ==> k + 1 < |line| && !Hits(line, blade, k)
    {
      var dist := P2.PtSegDist2(XY(blade), XY(line[i]), XY(line[i + 1]));
      GapIs(line, blade, i, dist);
      if i == 0 || dist < mindist {
        mindist, seg := dist, i;
        if mindist == 0.0 {
          FirstHitIs(line, blade, i);
          NoneNegative(line, blade);
          return;
        }
      }
      i := i + 1;
    }
    NoHit(line, blade);
  }

  /** The squared distance of a point from segment k. */
  function Gap(line: Line, b: Point4D, k: nat): real
    requires k + 1 < |line|
  {
    P2.PtSegDist2(XY(b), XY(line[k]), XY(line[k + 1]))
  }

  lemma GapIs(line: Line, b: Point4D, k: nat, dist: real)
    requires k + 1 < |line| && dist == P2.PtSegDist2(XY(b), XY(line[k]), XY(line[k + 1]))
    ensures dist == Gap(line, b, k) >= 0.0 && (Hits(line, b, k) <==> dist == 0.0)
  {
    hide P2.PtSegDist2;
    DistanceNotNegative(XY(b), XY(line[k]), XY(line[k + 1]));
  }

  lemma NoneNegative(line: Line, b: Point4D)
    ensures forall k: nat :: k + 1 < |line| ==> Gap(line, b, k) >= 0.0
  {
    hide Gap;
    forall k: nat | k + 1 < |line|
      ensures Gap(line, b, k) >= 0.0
    {
      GapIs(line, b, k, P2.PtSegDist2(XY(b), XY(line[k]), XY(line[k + 1])));
    }
  }

  lemma DistanceNotNegative(p: P2.Point2D, A: P2.Point2D, B: P2.Point2D)
    ensures P2.PtSegDist2(p, A, B) >= 0.0
  {
    var q := P2.PtSegDist2Exact(p, A, B);
    P2.Dist2Symmetric(p, q);
  }

  // ---- Splitting at many points ----

  /** How many cuts a point still makes in the pieces from slot j on. */
  function Pending(lines: seq<Line>, b: Point4D, j: nat): nat
    requires j <= |lines|
    decreases |lines| - j
  {
    if j == |lines| then 0 else Work(lines[j], b) + Pending(lines, b, j + 1)
  }

  lemma {:induction false} PendingAppend(lines: seq<Line>, b: Point4D, j: nat, piece: Line)
    requires j <= |lines|
    ensures Pending(lines + [piece], b, j) == Pending(lines, b, j) + Work(piece, b)
    decreases |lines| - j
  {
    hide Work;
    if j < |lines| {
      PendingAppend(lines, b, j + 1, piece);
    } else {
      assert Pending(lines + [piece], b, j + 1) == 0;
    }
  }

  lemma {:induction false} PendingIgnores(lines: seq<Line>, b: Point4D, i: nat, j: nat, piece: Line)
    requires i < j <= |lines|
    ensures Pending(lines[i := piece], b, j) == Pending(lines, b, j)
    decreases |lines| - j
  {
    hide Work;
    if j < |lines| {
      PendingIgnores(lines, b, i, j + 1, piece);
    }
  }

  predicate AllStored(lines: seq<Line>, hasz: bool, hasm: bool) {
    forall k :: 0 <= k < |lines| ==> IsStored(lines[k], hasz, hasm)
  }

  function FlattenAll(lines: seq<Line>): (f: seq<Line>)
    ensures |f| == |lines| && forall k :: 0 <= k < |lines| ==> f[k] == Flatten(lines[k])
  {
    seq(|lines|, k requires 0 <= k < |lines| => Flatten(lines[k]))
  }

  /** What some lines draw in the plane. */
  ghost function Shadows(lines: seq<Line>): iset<Point4D> { Union(FlattenAll(lines)) }

  lemma FlatUnion(lines: seq<Line>)
    requires AllStored(lines, false, false)
    ensures Shadows(lines) == Union(lines)
  {
    hide Union;
    forall k | 0 <= k < |lines|
      ensures FlattenAll(lines)[k] == lines[k]
    {
      FlattenStored(lines[k]);
    }
    assert FlattenAll(lines) == lines;
  }

  /** No two of the places are closer than the tolerance without being one. */
  ghost predicate Apart(places: iset<P2.Point2D>) {
    forall p, q :: p in places && q in places && FpEquals(p.x, q.x) && FpEquals(p.y, q.y) ==> p == q
  }

  /** All vertices are at some places. */
  ghost predicate Within(line: Line, places: iset<P2.Point2D>) {
    forall p :: p in line ==> XY(p) in places
  }

  ghost predicate AllWithin(lines: seq<Line>, places: iset<P2.Point2D>) {
    forall k :: 0 <= k < |lines| ==> Within(lines[k], places)
  }

  /** Where the vertices and the points to split at are. */
  ghost function Places(line: Line, mp: seq<Point4D>): iset<P2.Point2D> {
    iset p: Point4D | p in line || p in mp :: XY(p)
  }

  /** At places apart every cut is a point of the line, Z and M included. */
  lemma ApartIsExact(line: Line, b: Point4D, seg: nat, places: iset<P2.Point2D>)
    requires seg + 1 < |line| && Hits(line, b, seg) && Within(line, places) && XY(b) in places && Apart(places)
    ensures Cut(line, b, seg) in Seg(line[seg], line[seg + 1])
    ensures Within(Head(line, b, seg), places) && Within(Tail(line, b, seg), places)
  {
    hide Hits, Seg, Head, Tail;
    CutOnSegment(line, b, seg);
    var A, B := line[seg], line[seg + 1];
    assert A in line && B in line;
    if Short(A, B) {
      var t := HitFraction(line, b, seg);
      assert XY(A) == XY(B);
      SameLerp(XY(A), t);
    }
    PiecesHold(line, b, seg);
    CutIsBelow(b, A, B);
  }

  lemma SameLerp(A: P2.Point2D, t: real)
    ensures P2.Lerp(A, A, t) == A
  {
  }

  // ---- Where the pieces run ----

  /** A cut at a point of its segment: both pieces run along where the line ran, the first up
      to a position, the second from there on. */
  lemma CutAlong(whole: Line, line: Line, at: seq<Stay>, b: Point4D, seg: nat)
    returns (headAt: seq<Stay>, tailAt: seq<Stay>, x: real)
    requires Along(whole, line, at) && seg + 1 < |line| && Cut(line, b, seg) in Seg(line[seg], line[seg + 1])
    ensures Along(whole, Head(line, b, seg), headAt) && Reach(headAt) == Span(Reach(at).lo, x)
    ensures Along(whole, Tail(line, b, seg), tailAt) && Reach(tailAt) == Span(x, Reach(at).hi)
  {
    hide PointAt, Lerp, Cut, Along, Gather, Appended, Reach;
    AlongSize(whole, line, at);
    var p := Cut(line, b, seg);
    x := CutPosition(whole, line, at, p, seg);
    headAt := RunAlong(whole, line, at, seg);
    headAt := AlongAppend(whole, Gather([], line[..seg + 1]), headAt, p, Stay(x, x));
    OneAlong(whole, p, x);
    AlongBack(whole, line, at, seg + 1);
    tailAt := AlongGather(whole, [p], [Stay(x, x)], line[seg + 1..], at[seg + 1..]);
  }

  lemma OneAlong(whole: Line, p: Point4D, x: real)
    requires StaysAt(whole, p, Stay(x, x))
    ensures Along(whole, [p], [Stay(x, x)]) && Reach([Stay(x, x)]) == Span(x, x)
  {
    hide StaysAt;
  }

  lemma CutPosition(whole: Line, line: Line, at: seq<Stay>, p: Point4D, seg: nat) returns (x: real)
    requires Along(whole, line, at) && seg + 1 < |line| && p in Seg(line[seg], line[seg + 1])
    ensures StaysAt(whole, p, Stay(x, x)) && Joins(at[seg].dep, x) && Joins(x, at[seg + 1].arr)
  {
    hide PointAt, Lerp, StaysAt, Joins;
    var t :| 0.0 <= t <= 1.0 && p == Lerp(line[seg], line[seg + 1], t);
    var a, c := at[seg].dep, at[seg + 1].arr;
    assert OnOneEdge(a, c) && StaysAt(whole, line[seg], at[seg]) && StaysAt(whole, line[seg + 1], at[seg + 1]);
    x := PartWay(a, c, t);
    StayEnds(whole, line[seg], at[seg]);
    StayEnds(whole, line[seg + 1], at[seg + 1]);
    EdgeIsStraight(whole, a, c, t, x);
    BetweenJoins(a, x, c);
    StandsAt(whole, p, x);
  }

  lemma PartWay(a: real, c: real, t: real) returns (x: real)
    requires a < c && 0.0 <= t <= 1.0
    ensures x == a + t*(c - a) && a <= x <= c
  {
    x := a + t*(c - a);
    ProductNonNegative(t, c - a);
    ProductNonNegative(1.0 - t, c - a);
  }

  lemma StandsAt(whole: Line, p: Point4D, x: real)
    requires 0.0 <= x <= |whole| as real - 1.0 && PointAt(whole, x) == p
    ensures StaysAt(whole, p, Stay(x, x))
  {
    hide PointAt;
  }

  lemma BetweenJoins(a: real, x: real, c: real)
    requires OnOneEdge(a, c) && a <= x <= c
    ensures Joins(a, x) && Joins(x, c)
  {
    FloorGrows(a, x);
  }

  lemma FloorGrows(a: real, x: real)
    requires a <= x
    ensures a.Floor <= x.Floor
  {
  }

  lemma RunAlong(whole: Line, line: Line, at: seq<Stay>, seg: nat) returns (all: seq<Stay>)
    requires Along(whole, line, at) && seg + 1 < |line|
    ensures Along(whole, Gather([], line[..seg + 1]), all) && Reach(all) == Span(Reach(at).lo, at[seg].dep)
  {
    hide StaysAt, OnOneEdge, Gather;
    var before, beforeAt := line[..seg + 1], at[..seg + 1];
    AlongFront(whole, line, at, seg + 1);
    GatherFromFirst(before);
    assert Along(whole, [before[0]], [beforeAt[0]]);
    if seg > 0 {
      AlongBack(whole, before, beforeAt, 1);
      assert OnOneEdge(beforeAt[0].dep, beforeAt[1].arr);
    }
    all := AlongGather(whole, [before[0]], [beforeAt[0]], before[1..], beforeAt[1..]);
  }

  ghost predicate Covers(spans: seq<Span>, whole: Line) {
    forall x :: 0.0 <= x <= |whole| as real - 1.0 ==> SomeReaches(spans, x)
  }

  ghost predicate SomeReaches(spans: seq<Span>, x: real) {
    exists k :: 0 <= k < |spans| && spans[k].lo <= x <= spans[k].hi
  }

  predicate Beside(s: Span, t: Span) { s.hi <= t.lo || t.hi <= s.lo }

  ghost predicate AllBeside(spans: seq<Span>) {
    forall j, k :: 0 <= j < k < |spans| ==> Beside(spans[j], spans[k])
  }

  ghost predicate RunsAlong(whole: Line, line: Line, s: Span) {
    exists at :: Along(whole, line, at) && Reach(at) == s
  }

  /** The pieces are laid along the line: each runs along a stretch of it, in its direction;
      every position is in a stretch, and no two stretches have more than an end in common. */
  ghost predicate Laid(whole: Line, lines: seq<Line>, spans: seq<Span>) {
    && |spans| == |lines| && Covers(spans, whole) && AllBeside(spans)
    && forall k :: 0 <= k < |lines| ==> RunsAlong(whole, lines[k], spans[k])
  }

  ghost predicate Tiled(whole: Line, lines: seq<Line>) {
    exists spans :: Laid(whole, lines, spans)
  }

  lemma SpansSplit(spans: seq<Span>, j: nat, x: real, whole: Line)
    requires j < |spans| && Covers(spans, whole) && AllBeside(spans) && spans[j].lo <= x <= spans[j].hi
    ensures var after := spans[j := Span(x, spans[j].hi)] + [Span(spans[j].lo, x)];
            Covers(after, whole) && AllBeside(after)
  {
    var after := spans[j := Span(x, spans[j].hi)] + [Span(spans[j].lo, x)];
    forall y | 0.0 <= y <= |whole| as real - 1.0
      ensures SomeReaches(after, y)
    {
      assert SomeReaches(spans, y);
      var k :| 0 <= k < |spans| && spans[k].lo <= y <= spans[k].hi;
      var k' := if k != j then k else if y >= x then j else |spans|;
      assert after[k'].lo <= y <= after[k'].hi;
    }
    forall i, k | 0 <= i < k < |after|
      ensures Beside(after[i], after[k])
    {
      if i != j && k < |spans| && k != j {
        assert Beside(spans[i], spans[k]);
      } else if i < j && k == j {
        assert Beside(spans[i], spans[j]);
      } else if i == j && k < |spans| {
        assert Beside(spans[j], spans[k]);
      } else if k == |spans| && i < j {
        assert Beside(spans[i], spans[j]);
      } else if k == |spans| && i > j {
        assert Beside(spans[j], spans[i]);
      }
    }
  }

  lemma TiledBySplit(whole: Line, lines: seq<Line>, j: nat, b: Point4D, seg: nat)
    requires Tiled(whole, lines) && j < |lines| && seg + 1 < |lines[j]|
    requires Cut(lines[j], b, seg) in Seg(lines[j][seg], lines[j][seg + 1])
    ensures Tiled(whole, lines[j := Tail(lines[j], b, seg)] + [Head(lines[j], b, seg)])
  {
    hide StaysAt, OnOneEdge, Reach, Cut, Seg, Head, Tail, Covers, AllBeside;
    var spans: seq<Span> :| Laid(whole, lines, spans);
    assert RunsAlong(whole, lines[j], spans[j]);
    var at :| Along(whole, lines[j], at) && Reach(at) == spans[j];
    var headAt, tailAt, x := CutAlong(whole, lines[j], at, b, seg);
    ReachIsForward(whole, Head(lines[j], b, seg), headAt);
    ReachIsForward(whole, Tail(lines[j], b, seg), tailAt);
    SpansSplit(spans, j, x, whole);
    var after := lines[j := Tail(lines[j], b, seg)] + [Head(lines[j], b, seg)];
    var afterSpans := spans[j := Span(x, spans[j].hi)] + [Span(spans[j].lo, x)];
    assert RunsAlong(whole, Head(lines[j], b, seg), Span(spans[j].lo, x));
    assert RunsAlong(whole, Tail(lines[j], b, seg), Span(x, spans[j].hi));
    assert Laid(whole, after, afterSpans);
  }

  lemma {:induction false} ReachIsForward(whole: Line, pts: Line, at: seq<Stay>)
    requires Along(whole, pts, at)
    ensures Reach(at).lo <= Reach(at).hi
    decreases |at|
  {
    hide PointAt;
    var n := |at| - 1;
    assert StaysAt(whole, pts[n], at[n]);
    if n > 0 {
      AlongFront(whole, pts, at, n);
      ReachIsForward(whole, pts[..n], at[..n]);
      assert OnOneEdge(at[n-1].dep, at[n].arr);
    }
  }

  lemma TiledByItself(line: Line)
    requires line != []
    ensures Tiled(line, [line])
  {
    hide Along, Reach;
    var at := SelfAlong(line);
    var s := Span(0.0, |line| as real - 1.0);
    assert RunsAlong(line, line, s);
    forall x | 0.0 <= x <= |line| as real - 1.0
      ensures SomeReaches([s], x)
    {
      assert [s][0] == s;
    }
    assert Laid(line, [line], [s]);
  }

  /** Without Z and M every cut is a point of its segment. */
  lemma FlatIsExact(line: Line, b: Point4D, seg: nat)
    requires IsStored(line, false, false) && seg + 1 < |line| && Hits(line, b, seg)
    ensures Cut(line, b, seg) in Seg(line[seg], line[seg + 1])
  {
    hide Hits, Seg, CutPoint;
    CutOnSegment(line, b, seg);
  }

  // ---- The scan ----

  /** What the scan makes of some lines from slot j on: a piece that is cut is replaced by its
      second part, and its first part is put at the end, to be tried too. */
  ghost function Scan(lines: seq<Line>, b: Point4D, j: nat): seq<Line>
    requires j <= |lines|
    decreases Pending(lines, b, j), |lines| - j
  {
    if j == |lines| then lines
    else if Splits(lines[j], b) then
      PendingBySplit(lines, j, b);
      Scan(Replaced(lines, j, b), b, j + 1)
    else
      NoWork(lines[j], b);
      Scan(lines, b, j + 1)
  }

  lemma PendingBySplit(lines: seq<Line>, j: nat, b: Point4D)
    requires j < |lines| && Splits(lines[j], b)
    ensures Pending(Replaced(lines, j, b), b, j + 1) + 1 == Pending(lines, b, j)
  {
    hide Work, Splits, Head, Tail;
    var line := lines[j];
    NoHitBefore(line, b);
    var seg := FirstHit(line, b, 0);
    SplitsAtMostTwice(line, b);
    PendingAppend(lines[j := Tail(line, b, seg)], b, j + 1, Head(line, b, seg));
    PendingIgnores(lines, b, j, j + 1, Tail(line, b, seg));
  }

  /** One blade: every piece is tried, also those appended meanwhile. Fewer cuts are
      pending each time one is made, so the scan ends, and then none is. */
  method SplitAll(out: MLine, blade: Point4D, ghost places: iset<P2.Point2D>, ghost whole: Line)
    requires AllStored(out.geoms, out.hasz, out.hasm)
    modifies out
    ensures AllStored(out.geoms, out.hasz, out.hasm) && Shadows(out.geoms) == Shadows(old(out.geoms))
    ensures forall k :: 0 <= k < |out.geoms| ==> !Splits(out.geoms[k], blade)
    ensures |out.geoms| == |old(out.geoms)| + Pending(old(out.geoms), blade, 0)
    ensures Apart(places) && XY(blade) in places && AllWithin(old(out.geoms), places)
            ==> AllWithin(out.geoms, places) && Union(out.geoms) == Union(old(out.geoms))
    ensures Exactly(old(out.geoms), blade, out.hasz, out.hasm, places) && Tiled(whole, old(out.geoms)) ==> Tiled(whole, out.geoms)
    ensures out.geoms == Scan(old(out.geoms), blade, 0)
  {
    hide Splits, Kept, AllStored, Shadows, Tiled, Exactly, Scan;
    ghost var first := out.geoms;
    var j := 0;
    KeptAtStart(first, blade, out.hasz, out.hasm, places, whole);
    while j < |out.geoms|
      invariant j <= |out.geoms| && Kept(first, out.geoms, blade, j, out.hasz, out.hasm, places, whole)
      invariant AllStored(out.geoms, out.hasz, out.hasm)
      invariant forall k :: 0 <= k < j ==> !Splits(out.geoms[k], blade)
      decreases Pending(out.geoms, blade, j), |out.geoms| - j
    {
      ghost var lines := out.geoms;
      var line := out.geoms[j];
      StoredMember(lines, j, out.hasz, out.hasm);
      var ret := SplitByPointTo(line, blade, out);
      if ret == 2 {
        var last := out.geoms[|out.geoms| - 1];
        out.geoms := out.geoms[j := last][..|out.geoms| - 1];
        KeptBySplit(first, lines, blade, j, out.hasz, out.hasm, places, whole);
        assert out.geoms == Replaced(lines, j, blade);
      } else {
        KeptBySkip(first, lines, blade, j, out.hasz, out.hasm, places, whole);
      }
      j := j + 1;
    }
    KeptAtEnd(first, out.geoms, blade, out.hasz, out.hasm, places, whole);
  }

  lemma StoredMember(lines: seq<Line>, j: nat, hasz: bool, hasm: bool)
    requires AllStored(lines, hasz, hasm) && j < |lines|
    ensures IsStored(lines[j], hasz, hasm)
  {
    hide IsStored;
  }

  /** The second piece of line j in its place, the first piece at the end. */
  function Replaced(lines: seq<Line>, j: nat, b: Point4D): seq<Line>
    requires j < |lines| && Splits(lines[j], b)
  {
    var seg := FirstHit(lines[j], b, 0);
    lines[j := Tail(lines[j], b, seg)] + [Head(lines[j], b, seg)]
  }

  /** What the scan for one blade keeps, slots before j being done with. */
  ghost predicate Kept(first: seq<Line>, lines: seq<Line>, b: Point4D, j: nat, hasz: bool, hasm: bool,
                       places: iset<P2.Point2D>, whole: Line) {
    && j <= |lines| && AllStored(lines, hasz, hasm) && Shadows(lines) == Shadows(first)
    && |lines| + Pending(lines, b, j) == |first| + Pending(first, b, 0)
    && (Apart(places) && XY(b) in places && AllWithin(first, places)
        ==> AllWithin(lines, places) && Union(lines) == Union(first))
    && (Exactly(first, b, hasz, hasm, places) && Tiled(whole, first) ==> Tiled(whole, lines))
    && Scan(lines, b, j) == Scan(first, b, 0)
  }

  /** Every cut is a point of its segment: there is no Z or M, or the places are apart. */
  ghost predicate Exactly(lines: seq<Line>, b: Point4D, hasz: bool, hasm: bool, places: iset<P2.Point2D>) {
    (!hasz && !hasm) || (Apart(places) && XY(b) in places && AllWithin(lines, places))
  }

  lemma KeptAtStart(first: seq<Line>, b: Point4D, hasz: bool, hasm: bool, places: iset<P2.Point2D>, whole: Line)
    requires AllStored(first, hasz, hasm)
    ensures Kept(first, first, b, 0, hasz, hasm, places, whole)
  {
  }

  lemma KeptAtEnd(first: seq<Line>, lines: seq<Line>, b: Point4D, hasz: bool, hasm: bool, places: iset<P2.Point2D>, whole: Line)
    requires Kept(first, lines, b, |lines|, hasz, hasm, places, whole)
    ensures AllStored(lines, hasz, hasm) && Shadows(lines) == Shadows(first)
    ensures |lines| == |first| + Pending(first, b, 0)
    ensures Apart(places) && XY(b) in places && AllWithin(first, places)
            ==> AllWithin(lines, places) && Union(lines) == Union(first)
    ensures Exactly(first, b, hasz, hasm, places) && Tiled(whole, first) ==> Tiled(whole, lines)
    ensures lines == Scan(first, b, 0)
  {
    hide AllStored, Shadows, Apart, AllWithin, Union, Tiled, Exactly;
  }

  lemma KeptBySkip(first: seq<Line>, lines: seq<Line>, b: Point4D, j: nat, hasz: bool, hasm: bool,
                   places: iset<P2.Point2D>, whole: Line)
    requires Kept(first, lines, b, j, hasz, hasm, places, whole) && j < |lines| && !Splits(lines[j], b)
    ensures Kept(first, lines, b, j + 1, hasz, hasm, places, whole)
    ensures Pending(lines, b, j + 1) == Pending(lines, b, j)
  {
    hide AllStored, Shadows, Apart, AllWithin, Union, Splits, Work, Tiled, Exactly;
    NoWork(lines[j], b);
  }

  lemma KeptBySplit(first: seq<Line>, lines: seq<Line>, b: Point4D, j: nat, hasz: bool, hasm: bool,
                    places: iset<P2.Point2D>, whole: Line)
    requires Kept(first, lines, b, j, hasz, hasm, places, whole) && j < |lines| && Splits(lines[j], b)
    ensures var after := Replaced(lines, j, b);
            && Kept(first, after, b, j + 1, hasz, hasm, places, whole) && AllStored(after, hasz, hasm)
            && !Splits(after[j], b) && Pending(after, b, j + 1) < Pending(lines, b, j)
            && forall k :: 0 <= k < j ==> after[k] == lines[k]
  {
    hide AllStored, Shadows, Apart, AllWithin, Union, Splits, Work, Pending, Head, Tail, Tiled, Cut, Seg;
    NoHitBefore(lines[j], b);
    SplitReplaces(lines, j, b, hasz, hasm);
    ScanSplits(lines, j, b);
    var seg := FirstHit(lines[j], b, 0);
    if Apart(places) && XY(b) in places && AllWithin(first, places) {
      SplitIsExact(lines, j, b, places);
    }
    if Exactly(first, b, hasz, hasm, places) && Tiled(whole, first) {
      CutIsExact(lines, j, b, seg, hasz, hasm, places);
      TiledBySplit(whole, lines, j, b, seg);
    }
  }

  lemma ScanSplits(lines: seq<Line>, j: nat, b: Point4D)
    requires j < |lines| && Splits(lines[j], b)
    ensures Scan(Replaced(lines, j, b), b, j + 1) == Scan(lines, b, j)
  {
    hide Splits, Pending;
  }

  lemma CutIsExact(lines: seq<Line>, j: nat, b: Point4D, seg: nat, hasz: bool, hasm: bool, places: iset<P2.Point2D>)
    requires AllStored(lines, hasz, hasm) && j < |lines| && seg + 1 < |lines[j]| && Hits(lines[j], b, seg)
    requires (!hasz && !hasm) || (Apart(places) && XY(b) in places && AllWithin(lines, places))
    ensures Cut(lines[j], b, seg) in Seg(lines[j][seg], lines[j][seg + 1])
  {
    hide IsStored, Hits, Within, Apart, Cut, Seg;
    if !hasz && !hasm {
      FlatIsExact(lines[j], b, seg);
    } else {
      ApartIsExact(lines[j], b, seg, places);
    }
  }

  lemma NoWork(line: Line, b: Point4D)
    requires !Splits(line, b)
    ensures Work(line, b) == 0
  {
    hide Splits;
  }

  lemma SplitReplaces(lines: seq<Line>, j: nat, b: Point4D, hasz: bool, hasm: bool)
    requires AllStored(lines, hasz, hasm) && j < |lines| && Splits(lines[j], b)
    ensures var seg := FirstHit(lines[j], b, 0);
            && seg + 1 < |lines[j]|
            && var (head, tail) := (Head(lines[j], b, seg), Tail(lines[j], b, seg));
               var after := lines[j := tail] + [head];
               && AllStored(after, hasz, hasm) && Shadows(after) == Shadows(lines)
               && !Splits(tail, b)
               && Pending(after, b, j + 1) + 1 == Pending(lines, b, j)
  {
    hide Union, IsStored, Path, Hits, Work, Head, Tail, Splits;
    var line := lines[j];
    NoHitBefore(line, b);
    var seg := FirstHit(line, b, 0);
    var head, tail := Head(line, b, seg), Tail(line, b, seg);
    PiecesCover(line, b, seg);
    PiecesStored(line, b, seg, hasz, hasm);
    UnionReplaced(FlattenAll(lines), j, Flatten(head), Flatten(tail));
    assert FlattenAll(lines[j := tail] + [head]) == FlattenAll(lines)[j := Flatten(tail)] + [Flatten(head)];
    SplitsAtMostTwice(line, b);
    PendingAppend(lines[j := tail], b, j + 1, head);
    PendingIgnores(lines, b, j, j + 1, tail);
  }

  lemma SplitIsExact(lines: seq<Line>, j: nat, b: Point4D, places: iset<P2.Point2D>)
    requires j < |lines| && Splits(lines[j], b) && AllWithin(lines, places) && XY(b) in places && Apart(places)
    ensures var seg := FirstHit(lines[j], b, 0);
            && seg + 1 < |lines[j]|
            && var (head, tail) := (Head(lines[j], b, seg), Tail(lines[j], b, seg));
               var after := lines[j := tail] + [head];
               AllWithin(after, places) && Union(after) == Union(lines)
  {
    hide Union, Path, Hits, Head, Tail, Splits, Within, Cut;
    var line := lines[j];
    NoHitBefore(line, b);
    var seg := FirstHit(line, b, 0);
    ApartIsExact(line, b, seg, places);
    PiecesCover(line, b, seg);
    UnionReplaced(lines, j, Head(line, b, seg), Tail(line, b, seg));
  }

  /** One scan for each point. */
  ghost function ScanAll(lines: seq<Line>, mp: seq<Point4D>): seq<Line> {
    if mp == [] then lines else Scan(ScanAll(lines, mp[..|mp| - 1]), mp[|mp| - 1], 0)
  }

  lemma ShadowOfOne(line: Line)
    ensures Shadows([line]) == Shadow(line)
  {
    assert FlattenAll([line]) == [Flatten(line)];
    UnionOfOne(Flatten(line));
  }

  /** rtline_split_by_mpoint: in the plane the pieces draw exactly what the line drew, and
      the last point splits none of them. Z and M stay too when the line has none, and
      when no two of all the places are closer than the tolerance without being one. */
  method SplitByMPoint(line: Line, hasz: bool, hasm: bool, mp: seq<Point4D>) returns (out: MLine)
    requires IsStored(line, hasz, hasm)
    ensures fresh(out) && AllStored(out.geoms, hasz, hasm) && Shadows(out.geoms) == Shadow(line)
    ensures (!hasz && !hasm) || Apart(Places(line, mp)) ==> Union(out.geoms) == Path(line)
    ensures mp != [] ==> forall k :: 0 <= k < |out.geoms| ==> !Splits(out.geoms[k], mp[|mp| - 1])
    ensures |mp| == 1 ==> |out.geoms| == 1 + Work(line, mp[0])
    ensures line != [] && ((!hasz && !hasm) || Apart(Places(line, mp))) ==> Tiled(line, out.geoms)
    ensures out.geoms == ScanAll([line], mp)
  {
    hide Splits, Union, Shadows, Shadow, IsStored, Path, Work, Apart, Tiled, Scan;
    out := new MLine.Empty(hasz, hasm);
    out.Add(line);
    assert out.geoms == [line];
    UnionOfOne(line);
    ShadowOfOne(line);
    ghost var places := Places(line, mp);
    assert AllWithin(out.geoms, places);
    if line != [] {
      TiledByItself(line);
    }
    assert mp[..0] == [];
    for i := 0 to |mp|
      invariant fresh(out) && out.hasz == hasz && out.hasm == hasm
      invariant AllStored(out.geoms, hasz, hasm) && Shadows(out.geoms) == Shadow(line)
      invariant Apart(places) ==> AllWithin(out.geoms, places) && Union(out.geoms) == Path(line)
      invariant i > 0 ==> forall k :: 0 <= k < |out.geoms| ==> !Splits(out.geoms[k], mp[i - 1])
      invariant i == 0 ==> out.geoms == [line]
      invariant line != [] && ((!hasz && !hasm) || Apart(places)) ==> Tiled(line, out.geoms)
      invariant out.geoms == ScanAll([line], mp[..i])
      invariant i == 1 ==> |out.geoms| == 1 + Work(line, mp[0])
    {
      assert XY(mp[i]) in places;
      SplitAll(out, mp[i], places, line);
      assert mp[..i + 1][..i] == mp[..i];
    }
    assert mp[..|mp|] == mp;
    if !hasz && !hasm {
      FlatUnion(out.geoms);
      FlattenStored(line);
    }
  }

  lemma EitherOrder(a: Line, b: Line)
    ensures Path(a) + Path(b) == Path(b) + Path(a)
  {
    hide Path;
  }

  /** Two pieces that cover a line, as a collection. */
  lemma UnionOfTwo(line: Line, head: Line, tail: Line)
    requires Path(head) + Path(tail) == Path(line)
    ensures Union([head, tail]) == Path(line)
  {
    hide Path;
    UnionOfOne(line);
    EitherOrder(head, tail);
    UnionReplaced([line], 0, tail, head);
    assert [line][0 := head] + [tail] == [head, tail];
  }

  lemma InUnion(p: Point4D, lines: seq<Line>, k: nat)
    requires k < |lines| && p in Path(lines[k])
    ensures p in Union(lines)
  {
    hide Path;
    assert OnSome(p, lines);
  }

  lemma HeadEndsAtCut(line: Line, b: Point4D, seg: nat)
    requires seg + 1 < |line|
    ensures Cut(line, b, seg) in Path(Head(line, b, seg))
  {
    hide Path;
    PathAppended(Gather([], line[..seg + 1]), Cut(line, b, seg));
    LastOnPath(Head(line, b, seg));
  }

  /** What the two pieces of one cut draw together. */
  lemma PiecesTogether(line: Line, b: Point4D, seg: nat, hasz: bool, hasm: bool)
    requires IsStored(line, hasz, hasm) && seg + 1 < |line| && Hits(line, b, seg)
    ensures var pieces := [Head(line, b, seg), Tail(line, b, seg)];
            && Shadows(pieces) == Shadow(line)
            && (Cut(line, b, seg) in Seg(line[seg], line[seg + 1]) ==> Union(pieces) == Path(line))
            && (Union(pieces) == Path(line) ==> Cut(line, b, seg) in Path(line))
            && (!hasz && !hasm ==> Union(pieces) == Path(line))
  {
    hide Union, IsStored, Path, Seg, Hits, Head, Tail, Cut;
    var head, tail := Head(line, b, seg), Tail(line, b, seg);
    PiecesCover(line, b, seg);
    UnionOfTwo(Flatten(line), Flatten(head), Flatten(tail));
    assert FlattenAll([head, tail]) == [Flatten(head), Flatten(tail)];
    if Cut(line, b, seg) in Seg(line[seg], line[seg + 1]) {
      UnionOfTwo(line, head, tail);
    }
    HeadEndsAtCut(line, b, seg);
    InUnion(Cut(line, b, seg), [head, tail], 0);
    if !hasz && !hasm {
      PiecesStored(line, b, seg, false, false);
      FlatUnion([head, tail]);
      FlattenStored(line);
    }
  }

  /** rtline_split_by_point: the line itself when it is not cut. */
  method SplitByPoint(line: Line, hasz: bool, hasm: bool, blade: Point4D) returns (out: MLine)
    requires IsStored(line, hasz, hasm)
    ensures fresh(out) && Shadows(out.geoms) == Shadow(line)
    ensures !Splits(line, blade) ==> out.geoms == [line] && Union(out.geoms) == Path(line)
    ensures Splits(line, blade)
            ==> var seg := FirstHit(line, blade, 0);
                && out.geoms == [Head(line, blade, seg), Tail(line, blade, seg)]
                && (Cut(line, blade, seg) in Seg(line[seg], line[seg + 1]) ==> Union(out.geoms) == Path(line))
                && (Union(out.geoms) == Path(line) ==> Cut(line, blade, seg) in Path(line))
    ensures !hasz && !hasm ==> Union(out.geoms) == Path(line)
    ensures Splits(line, blade)
            ==> var seg := FirstHit(line, blade, 0);
                && out.geoms[0] == Appended(Run(line, 0.0, seg + 1), Cut(line, blade, seg))
                && out.geoms[1] == Gather([Cut(line, blade, seg)], line[seg + 1..])
                && (Cut(line, blade, seg) in Seg(line[seg], line[seg + 1]) ==> Tiled(line, out.geoms))
  {
    hide Splits, Union, Shadows, Shadow, IsStored, Path, Seg, Hits, Head, Tail, Cut, Tiled, Run, Gather;
    out := new MLine.Empty(hasz, hasm);
    var ret := SplitByPointTo(line, blade, out);
    if ret < 2 {
      out.Add(line);
      assert out.geoms == [line];
      UnionOfOne(line);
      ShadowOfOne(line);
    } else {
      NoHitBefore(line, blade);
      ghost var seg := FirstHit(line, blade, 0);
      assert out.geoms == [Head(line, blade, seg), Tail(line, blade, seg)];
      PiecesTogether(line, blade, seg, hasz, hasm);
      PiecesFollow(line, blade, seg);
    }
  }

  /** The first piece is the line up to the cut, the second the cut and the vertices behind
      it; cut at a point of its segment, the line is tiled by them. */
  lemma PiecesFollow(line: Line, b: Point4D, seg: nat)
    requires seg + 1 < |line|
    ensures Head(line, b, seg) == Appended(Run(line, 0.0, seg + 1), Cut(line, b, seg))
    ensures Tail(line, b, seg) == Gather([Cut(line, b, seg)], line[seg + 1..])
    ensures Cut(line, b, seg) in Seg(line[seg], line[seg + 1])
            ==> Tiled(line, [Head(line, b, seg), Tail(line, b, seg)])
  {
    hide Cut, Seg, Tiled;
    var before := line[..seg + 1];
    GatherFromFirst(before);
    AtVertex(line, 0);
    RunStart(line, 0.0, 0);
    RunIsGather(line, seg + 1);
    if Cut(line, b, seg) in Seg(line[seg], line[seg + 1]) {
      TiledByItself(line);
      TiledBySplit(line, [line], 0, b, seg);
      var head, tail := Head(line, b, seg), Tail(line, b, seg);
      assert [line][0 := tail] + [head] == [tail, head];
      TiledSwap(line, tail, head);
    }
  }

  lemma {:induction false} RunIsGather(line: Line, i: nat)
    requires 0 < i <= |line|
    ensures Run(line, 0.0, i) == Gather([], line[..i])
  {
    hide PointAt;
    if i == 1 {
      AtVertex(line, 0);
      RunStart(line, 0.0, 0);
      assert line[..1][..0] == [];
    } else {
      RunIsGather(line, i - 1);
      RunStep(line, 0.0, i - 1);
      assert line[..i][..i - 1] == line[..i - 1];
    }
  }

  lemma TiledSwap(whole: Line, a: Line, b: Line)
    requires Tiled(whole, [a, b])
    ensures Tiled(whole, [b, a])
  {
    hide RunsAlong;
    var lines, swapped := [a, b], [b, a];
    var spans: seq<Span> :| Laid(whole, lines, spans);
    var turned := [spans[1], spans[0]];
    forall x | 0.0 <= x <= |whole| as real - 1.0
      ensures SomeReaches(turned, x)
    {
      assert SomeReaches(spans, x);
      var k :| 0 <= k < |spans| && spans[k].lo <= x <= spans[k].hi;
      assert turned[1 - k] == spans[k];
    }
    assert Beside(spans[0], spans[1]);
    forall k | 0 <= k < |swapped|
      ensures RunsAlong(whole, swapped[k], turned[k])
    {
      assert RunsAlong(whole, lines[1 - k], spans[1 - k]);
    }
    assert Laid(whole, swapped, turned);
  }

  // ---- Where Z and M go astray ----

  /** A line along the x axis and a point over its second segment. */
  predicate AlongAxis(line: Line, b: Point4D) {
    && |line| >= 3 && b.y == 0.0 && (forall k :: 0 <= k < |line| ==> line[k].y == 0.0)
    && line[0].x < line[1].x < b.x < line[2].x
  }

  lemma OnAxis(A: Point4D, B: Point4D, b: Point4D) returns (t: real)
    requires A.y == B.y == b.y == 0.0 && A.x < b.x < B.x
    ensures 0.0 < t < 1.0 && b.x == Mix(A.x, B.x, t) && Flat(b) in Seg(Flat(A), Flat(B))
    ensures t*(B.x - A.x) == b.x - A.x
  {
    t := UnitQuotient(b.x - A.x, B.x - A.x);
    MixNothing(0.0, 0.0, t);
    assert Flat(b) == Lerp(Flat(A), Flat(B), t);
  }

  lemma OutsideX(A: Point4D, B: Point4D, p: Point4D)
    requires A.x < B.x && !(A.x <= p.x <= B.x)
    ensures p !in Seg(A, B)
  {
    if p in Seg(A, B) {
      var t :| 0.0 <= t <= 1.0 && p == Lerp(A, B, t);
      MixBetween(A.x, B.x, t);
    }
  }

  lemma MixBetween(a: real, b: real, t: real)
    requires a <= b && 0.0 <= t <= 1.0
    ensures a <= Mix(a, b, t) <= b
  {
    ProductNonNegative(b - a, t);
    ProductNonNegative(b - a, 1.0 - t);
  }

  lemma SecondIsHit(line: Line, b: Point4D)
    requires AlongAxis(line, b)
    ensures FirstHit(line, b, 0) == 1
  {
    hide Hits, Seg, FirstHit;
    OutsideX(Flat(line[0]), Flat(line[1]), Flat(b));
    var t := OnAxis(line[1], line[2], b);
    HitIsOn(line, b, 0);
    HitIsOn(line, b, 1);
    FirstHitIs(line, b, 1);
  }

  lemma AxisCut(A: Point4D, B: Point4D, b: Point4D, t: real)
    requires A.y == B.y == b.y == 0.0 && !Short(A, B) && 0.0 <= t <= 1.0 && t*(B.x - A.x) == b.x - A.x
    ensures CutPoint(b, A, B) == Point4D(b.x, 0.0, Mix(A.z, B.z, t), Mix(A.m, B.m, t))
  {
    hide CutPoint;
    AxisDot(b.x - A.x, B.x - A.x, t);
    LongCut(b, A, B, t);
  }

  lemma AxisDot(x: real, u: real, t: real)
    requires x == t*u
    ensures P2.Inner(x, 0.0, u, 0.0) == t*P2.Norm2(u, 0.0)
  {
  }

  /** A point just behind the start of a steep last segment cuts twice: of the three pieces
      one stands upright. */
  lemma SteepIsCutTwice(line: Line, b: Point4D, t: real)
    requires AlongAxis(line, b) && |line| == 3 && Short(line[1], b) && !FpEquals(b.x, line[2].x)
    requires 0.0 <= t <= 1.0 && t*(line[2].x - line[1].x) == b.x - line[1].x
    requires !FpEquals(line[1].z, Mix(line[1].z, line[2].z, t))
    ensures Splits(line, b) && Work(line, b) == 2
  {
    hide FirstHit, CutPoint, Mix, Work, Splits;
    SecondIsHit(line, b);
    AxisCut(line[1], line[2], b, t);
    TwiceInMiddle(line, b);
  }

  lemma TwiceInMiddle(line: Line, b: Point4D)
    requires |line| == 3 && FirstHit(line, b, 0) == 1 && line[0] != line[1] && Short(line[1], b)
    requires !P4dSame(Moved(line[1], b), Cut(line, b, 1)) && !P4dSame(Cut(line, b, 1), line[2])
    ensures Splits(line, b) && Work(line, b) == 2
  {
    hide FirstHit, Cut, Work, P4dSame;
    SplitsTwiceWhen(line, b);
  }

  /** One such line. */
  method ThreePieces() returns (line: Line, b: Point4D, out: MLine)
    ensures |line| == 3 && |out.geoms| == 3 && Shadows(out.geoms) == Shadow(line)
  {
    hide Splits, Work, Shadow, Shadows, Union, Path;
    line := [Point4D(-1.0, 0.0, 0.0, 0.0), Point4D(0.0, 0.0, 0.0, 0.0), Point4D(1.0, 0.0, 4.0, 0.0)];
    b := Point4D(0.0000000000005, 0.0, 0.0, 0.0);
    SteepIsCutTwice(line, b, b.x);
    out := SplitByMPoint(line, true, false, [b]);
  }

  /** On a short segment Z is not interpolated: where it changes, the cut is not a point of
      the line. */
  lemma ShortCutIsLeft(line: Line, b: Point4D)
    requires AlongAxis(line, b) && |line| == 4 && line[2].x < line[3].x
    requires Short(line[1], line[2]) && line[1].z != line[2].z
    ensures Splits(line, b) && FirstHit(line, b, 0) == 1 && Cut(line, b, 1) !in Path(line)
  {
    hide Splits, FirstHit, CutPoint, Seg, Path;
    SecondIsHit(line, b);
    SplitsInside(line, b, 1);
    var p := Cut(line, b, 1);
    ShortCut(b, line[1], line[2]);
    OutsideX(line[0], line[1], p);
    NotUpright(line[1], line[2], p);
    OutsideX(line[2], line[3], p);
    FourPath(line);
  }

  lemma ShortCut(b: Point4D, A: Point4D, B: Point4D)
    requires Short(A, B)
    ensures CutPoint(b, A, B) == Moved(A, b)
  {
  }

  lemma SplitsInside(line: Line, b: Point4D, seg: nat)
    requires 0 < seg < |line| - 2 && FirstHit(line, b, 0) == seg
    ensures Splits(line, b)
  {
    hide FirstHit, CutPoint;
  }

  lemma NotUpright(A: Point4D, B: Point4D, p: Point4D)
    requires A.z != B.z && p.z == A.z && p.x != A.x
    ensures p !in Seg(A, B)
  {
    if p in Seg(A, B) {
      var t :| 0.0 <= t <= 1.0 && p == Lerp(A, B, t);
      MixStays(A.z, B.z, t);
      MixStays(A.x, B.x, t);
    }
  }

  lemma FourPath(line: Line)
    requires |line| == 4
    ensures Path(line) == Seg(line[0], line[1]) + Seg(line[1], line[2]) + Seg(line[2], line[3])
  {
    hide Seg, Path;
    PathOfPair(line[0], line[1]);
    assert line[..2] == [line[0], line[1]];
    PathAppend(line[..2], line[2]);
    assert line[..3] == line[..2] + [line[2]];
    PathAppend(line[..3], line[3]);
    assert line == line[..3] + [line[3]];
  }
}
