/** Clipping a line to a range of one ordinate: rtline_clip_to_ordinate_range in
    src/rtlinearreferencing.c. */
module OrdinateClip {
  import opened Convex
  import opened PointArrays
  import opened Tracing

  datatype Ordinate = X | Y | Z | M

  function Get(p: Point4D, o: Ordinate): real {
    match o
    case X => p.x
    case Y => p.y
    case Z => p.z
    case M => p.m
  }

  predicate Between(v: real, a: real, b: real) {
    (a <= v <= b) || (b <= v <= a)
  }

  /** The points of a set whose ordinate is in range. */
  ghost function InRange(S: iset<Point4D>, o: Ordinate, from: real, to: real): iset<Point4D> {
    iset p | p in S && from <= Get(p, o) <= to
  }

  function Rise(q: Point4D, p: Point4D, o: Ordinate): real { Get(p, o) - Get(q, o) }

  lemma OrdinateAlong(q: Point4D, p: Point4D, o: Ordinate, t: real)
    ensures Get(Lerp(q, p, t), o) == Get(q, o) + t*Rise(q, p, o)
  {
  }

  /** The point of the line through q and p with ordinate v. */
  function Cut(q: Point4D, p: Point4D, o: Ordinate, v: real): Point4D
    requires Get(q, o) != Get(p, o)
  {
    Lerp(q, p, (v - Get(q, o)) / Rise(q, p, o))
  }

  lemma Ratio(x: real, g: real) returns (l: real)
    requires g != 0.0
    ensures l == x / g && l*g == x
  {
    l := x / g;
  }

  lemma RatioInUnit(x: real, g: real, l: real)
    requires g != 0.0 && l*g == x && Between(x, 0.0, g)
    ensures 0.0 <= l <= 1.0
  {
    if l < 0.0 {
      var z := ProductPositive(-l, if g > 0.0 then g else -g);
    }
    if l > 1.0 {
      var z := ProductPositive(l - 1.0, if g > 0.0 then g else -g);
    }
  }

  lemma CutIs(q: Point4D, p: Point4D, o: Ordinate, v: real, l: real)
    requires Get(q, o) != Get(p, o) && l*Rise(q, p, o) == v - Get(q, o)
    ensures Cut(q, p, o, v) == Lerp(q, p, l)
  {
    hide Lerp, Get;
    var g := Rise(q, p, o);
    var r := Ratio(v - Get(q, o), g);
    assert g != 0.0;
    hide Rise;
    Cancel(r, l, g);
  }

  /** The parameter at which a segment takes an ordinate between those of its ends. */
  lemma CutParameter(q: Point4D, p: Point4D, o: Ordinate, v: real) returns (l: real)
    requires Get(q, o) != Get(p, o) && Between(v, Get(q, o), Get(p, o))
    ensures 0.0 <= l <= 1.0 && l*Rise(q, p, o) == v - Get(q, o)
    ensures Cut(q, p, o, v) == Lerp(q, p, l)
  {
    hide Lerp, Get;
    l := Ratio(v - Get(q, o), Rise(q, p, o));
    RatioInUnit(v - Get(q, o), Rise(q, p, o), l);
    CutIs(q, p, o, v, l);
  }

  /** A point of a segment is determined by its ordinate. */
  lemma CutIsUnique(q: Point4D, p: Point4D, o: Ordinate, t: real)
    requires Get(q, o) != Get(p, o)
    ensures Cut(q, p, o, Get(Lerp(q, p, t), o)) == Lerp(q, p, t)
  {
    hide Lerp, Get;
    OrdinateAlong(q, p, o, t);
    CutIs(q, p, o, Get(Lerp(q, p, t), o), t);
  }

  lemma CutEnds(q: Point4D, p: Point4D, o: Ordinate)
    requires Get(q, o) != Get(p, o)
    ensures Cut(q, p, o, Get(q, o)) == q && Cut(q, p, o, Get(p, o)) == p
  {
    EndsOnSegment(q, p);
    CutIsUnique(q, p, o, 0.0);
    CutIsUnique(q, p, o, 1.0);
  }

  lemma MixInUnit(u: real, v: real, t: real)
    requires 0.0 <= u <= 1.0 && 0.0 <= v <= 1.0 && 0.0 <= t <= 1.0
    ensures 0.0 <= u + t*(v - u) <= 1.0
    ensures Between(u + t*(v - u), u, v)
  {
    var x := PartOfStep(v - u, t);
  }

  lemma PartOfStep(d: real, t: real) returns (x: real)
    requires 0.0 <= t <= 1.0
    ensures x == t*d && Between(x, 0.0, d)
  {
    x := t*d;
    if d >= 0.0 {
      ScaledLess(d, 0.0, t);
      ScaledLess(d, t, 1.0);
    } else {
      ScaledLess(-d, 0.0, t);
      ScaledLess(-d, t, 1.0);
    }
  }

  lemma BetweenScales(t: real, u: real, v: real, a: real, g: real)
    requires Between(t, u, v)
    ensures Between(a + t*g, a + u*g, a + v*g)
  {
    var lo, hi := if u <= v then u else v, if u <= v then v else u;
    if g >= 0.0 {
      ProductNonNegative(t - lo, g);
      ProductNonNegative(hi - t, g);
    } else {
      ProductNonNegative(t - lo, -g);
      ProductNonNegative(hi - t, -g);
    }
  }

  lemma Cancel(l: real, t: real, g: real)
    requires g != 0.0 && l*g == t*g
    ensures l == t
  {
    assert (l*g) / g == l;
    assert (t*g) / g == t;
  }

  lemma SubSegmentInside(q: Point4D, p: Point4D, o: Ordinate, v1: real, v2: real, s: Point4D)
    requires Get(q, o) != Get(p, o)
    requires Between(v1, Get(q, o), Get(p, o)) && Between(v2, Get(q, o), Get(p, o))
    requires s in Seg(Cut(q, p, o, v1), Cut(q, p, o, v2))
    ensures s in Seg(q, p) && Between(Get(s, o), v1, v2)
  {
    hide Lerp, Get, Cut, Rise;
    var a, g := Get(q, o), Rise(q, p, o);
    var l1 := CutParameter(q, p, o, v1);
    var l2 := CutParameter(q, p, o, v2);
    var t :| 0.0 <= t <= 1.0 && s == Lerp(Cut(q, p, o, v1), Cut(q, p, o, v2), t);
    LerpNested(q, p, l1, l2, t, l1 + t*(l2 - l1));
    MixInUnit(l1, l2, t);
    OnSegment(q, p, l1 + t*(l2 - l1));
    OrdinateAlong(q, p, o, l1 + t*(l2 - l1));
    BetweenScales(l1 + t*(l2 - l1), l1, l2, a, g);
  }

  lemma SubSegmentCovers(q: Point4D, p: Point4D, o: Ordinate, v1: real, v2: real, s: Point4D)
    requires Get(q, o) != Get(p, o)
    requires Between(v1, Get(q, o), Get(p, o)) && Between(v2, Get(q, o), Get(p, o))
    requires s in Seg(q, p) && Between(Get(s, o), v1, v2)
    ensures s in Seg(Cut(q, p, o, v1), Cut(q, p, o, v2))
  {
    hide Lerp, Get, Cut;
    var g := Rise(q, p, o);
    assert g != 0.0;
    hide Rise;
    var l1 := CutParameter(q, p, o, v1);
    var l2 := CutParameter(q, p, o, v2);
    var t :| 0.0 <= t <= 1.0 && s == Lerp(q, p, t);
    OrdinateAlong(q, p, o, t);
    if v1 == v2 {
      Cancel(l1, t, g);
      EndsOnSegment(s, Cut(q, p, o, v2));
    } else {
      var l := Ratio(Get(s, o) - v1, v2 - v1);
      RatioInUnit(Get(s, o) - v1, v2 - v1, l);
      ProportionScalar(l, l1, l2, t, g, v1 - Get(q, o), v2 - Get(q, o));
      LerpNested(q, p, l1, l2, l, l1 + l*(l2 - l1));
      OnSegment(Cut(q, p, o, v1), Cut(q, p, o, v2), l);
    }
  }

  lemma ProportionScalar(l: real, l1: real, l2: real, t: real, g: real, x1: real, x2: real)
    requires g != 0.0 && l1*g == x1 && l2*g == x2 && l*(x2 - x1) == t*g - x1
    ensures l1 + l*(l2 - l1) == t
  {
    assert (l1 + l*(l2 - l1))*g == l1*g + l*(l2*g - l1*g);
    Cancel(l1 + l*(l2 - l1), t, g);
  }

  /** Cutting a segment at two ordinates leaves exactly its points between them. */
  lemma SubSegment(q: Point4D, p: Point4D, o: Ordinate, v1: real, v2: real)
    requires Get(q, o) != Get(p, o)
    requires Between(v1, Get(q, o), Get(p, o)) && Between(v2, Get(q, o), Get(p, o))
    ensures Seg(Cut(q, p, o, v1), Cut(q, p, o, v2)) == iset s | s in Seg(q, p) && Between(Get(s, o), v1, v2)
  {
    hide Lerp, Get, Cut, Seg;
    forall s
      ensures s in Seg(Cut(q, p, o, v1), Cut(q, p, o, v2)) <==> s in Seg(q, p) && Between(Get(s, o), v1, v2)
    {
      if s in Seg(Cut(q, p, o, v1), Cut(q, p, o, v2)) {
        SubSegmentInside(q, p, o, v1, v2, s);
      }
      if s in Seg(q, p) && Between(Get(s, o), v1, v2) {
        SubSegmentCovers(q, p, o, v1, v2, s);
      }
    }
  }

  lemma OrdinateOnSegment(q: Point4D, p: Point4D, o: Ordinate, s: Point4D)
    requires s in Seg(q, p)
    ensures Between(Get(s, o), Get(q, o), Get(p, o))
  {
    hide Lerp, Get;
    var t :| 0.0 <= t <= 1.0 && s == Lerp(q, p, t);
    OrdinateAlong(q, p, o, t);
    BetweenScales(t, 0.0, 1.0, Get(q, o), Get(p, o) - Get(q, o));
  }

  // ---- What each step of the loop contributes ----

  /** Segments with both ends in range lie in range. */
  lemma BothInside(q: Point4D, p: Point4D, o: Ordinate, from: real, to: real)
    requires from <= Get(q, o) <= to && from <= Get(p, o) <= to
    ensures InRange(Seg(q, p), o, from, to) == Seg(q, p)
  {
    hide Lerp, Get;
    forall s | s in Seg(q, p)
      ensures from <= Get(s, o) <= to
    {
      OrdinateOnSegment(q, p, o, s);
    }
  }

  /** Segments with both ends beyond the same bound miss the range. */
  lemma SameSide(q: Point4D, p: Point4D, o: Ordinate, from: real, to: real)
    requires (Get(q, o) < from && Get(p, o) < from) || (Get(q, o) > to && Get(p, o) > to)
    ensures InRange(Seg(q, p), o, from, to) == iset{}
  {
    hide Lerp, Get;
    forall s | s in Seg(q, p)
      ensures !(from <= Get(s, o) <= to)
    {
      OrdinateOnSegment(q, p, o, s);
    }
  }

  /** The part of the range a segment with different end ordinates crosses, from v1 to v2. */
  lemma CutsInRange(q: Point4D, p: Point4D, o: Ordinate, from: real, to: real, v1: real, v2: real)
    requires Get(q, o) != Get(p, o)
    requires Between(v1, Get(q, o), Get(p, o)) && Between(v2, Get(q, o), Get(p, o))
    requires forall v :: Between(v, Get(q, o), Get(p, o)) ==> (Between(v, v1, v2) <==> from <= v <= to)
    ensures InRange(Seg(q, p), o, from, to) == Seg(Cut(q, p, o, v1), Cut(q, p, o, v2))
  {
    hide Lerp, Get, Cut, Seg;
    SubSegment(q, p, o, v1, v2);
    forall s | s in Seg(q, p)
      ensures Between(Get(s, o), v1, v2) <==> from <= Get(s, o) <= to
    {
      OrdinateOnSegment(q, p, o, s);
    }
  }

  /** q in range, p not: the segment is kept up to the bound it crosses. */
  lemma Leaving(q: Point4D, p: Point4D, o: Ordinate, from: real, to: real)
    requires from <= Get(q, o) <= to && !(from <= Get(p, o) <= to)
    ensures var v := if Get(p, o) > to then to else from;
            InRange(Seg(q, p), o, from, to) == Seg(q, Cut(q, p, o, v))
    ensures var v := if Get(p, o) > to then to else from;
            v == Get(q, o) ==> InRange(Seg(q, p), o, from, to) == iset{q}
  {
    hide Lerp, Get, Cut, Seg;
    var v := if Get(p, o) > to then to else from;
    CutEnds(q, p, o);
    CutsInRange(q, p, o, from, to, Get(q, o), v);
    DegenerateSegment(q);
  }

  /** p in range, q not: the segment is kept from the bound it crosses. */
  lemma Entering(q: Point4D, p: Point4D, o: Ordinate, from: real, to: real)
    requires !(from <= Get(q, o) <= to) && from <= Get(p, o) <= to
    ensures var v := if Get(q, o) > to then to else from;
            InRange(Seg(q, p), o, from, to) == Seg(Cut(q, p, o, v), p)
    ensures var v := if Get(q, o) > to then to else from;
            v == Get(p, o) ==> InRange(Seg(q, p), o, from, to) == iset{p}
  {
    hide Lerp, Get, Cut, Seg;
    var v := if Get(q, o) > to then to else from;
    CutEnds(q, p, o);
    CutsInRange(q, p, o, from, to, v, Get(p, o));
    DegenerateSegment(p);
  }

  /** Hopping over the whole range keeps the piece between its bounds. */
  lemma Hopping(q: Point4D, p: Point4D, o: Ordinate, from: real, to: real)
    requires from <= to
    requires (Get(q, o) < from && Get(p, o) > to) || (Get(q, o) > to && Get(p, o) < from)
    ensures var (v1, v2) := if Get(q, o) < from then (from, to) else (to, from);
            InRange(Seg(q, p), o, from, to) == Seg(Cut(p, q, o, v1), Cut(p, q, o, v2))
  {
    hide Lerp, Get, Cut, Seg;
    var (v1, v2) := if Get(q, o) < from then (from, to) else (to, from);
    CutReversed(q, p, o, v1);
    CutReversed(q, p, o, v2);
    CutsInRange(q, p, o, from, to, v1, v2);
  }

  lemma CutReversed(q: Point4D, p: Point4D, o: Ordinate, v: real)
    requires Get(q, o) != Get(p, o) && Between(v, Get(q, o), Get(p, o))
    ensures Cut(p, q, o, v) == Cut(q, p, o, v)
  {
    hide Get;
    var l := CutParameter(q, p, o, v);
    LerpReversed(q, p, l);
    OneMinusScalar(l, Get(p, o) - Get(q, o), v - Get(q, o));
    CutIs(p, q, o, v, 1.0 - l);
  }

  lemma OneMinusScalar(l: real, g: real, x: real)
    requires l*g == x
    ensures (1.0 - l)*(-g) == x - g
  {
  }

  lemma LerpReversed(q: Point4D, p: Point4D, l: real)
    ensures Lerp(p, q, 1.0 - l) == Lerp(q, p, l)
  {
  }

  // ---- The algorithm ----

  function Set(p: Point4D, o: Ordinate, v: real): Point4D {
    match o
    case X => p.(x := v)
    case Y => p.(y := v)
    case Z => p.(z := v)
    case M => p.(m := v)
  }

  predicate HasDim(o: Ordinate, hasz: bool, hasm: bool) {
    (o == Z ==> hasz) && (o == M ==> hasm)
  }

  lemma OrdinatesDecide(p: Point4D, q: Point4D, hasz: bool, hasm: bool)
    requires forall d :: HasDim(d, hasz, hasm) ==> Get(p, d) == Get(q, d)
    ensures Stored(p, hasz, hasm) == Stored(q, hasz, hasm)
  {
    assert HasDim(X, hasz, hasm) && HasDim(Y, hasz, hasm);
    assert Get(p, X) == Get(q, X) && Get(p, Y) == Get(q, Y);
    assert hasz ==> HasDim(Z, hasz, hasm) && Get(p, Z) == Get(q, Z);
    assert hasm ==> HasDim(M, hasz, hasm) && Get(p, M) == Get(q, M);
  }

  lemma LerpOrdinates(p1: Point4D, p2: Point4D, t: real, d: Ordinate)
    ensures Get(Lerp(p1, p2, t), d) == Get(p1, d) + t*(Get(p2, d) - Get(p1, d))
  {
  }

  lemma SameParameter(q: Point4D, p: Point4D, o: Ordinate, v: real, r: real, l: real)
    requires Get(q, o) != Get(p, o)
    requires r*(Get(p, o) - Get(q, o)) == v - Get(q, o) && l*Rise(q, p, o) == v - Get(q, o)
    ensures r == l
  {
    hide Get;
    Cancel(r, l, Get(p, o) - Get(q, o));
  }

  /** point_interpolate: overwrite the ordinates of r that the line has with those of
      the point at ordinate value v; refuse a value not between the two points. */
  method PointInterpolate(p1: Point4D, p2: Point4D, r0: Point4D, hasz: bool, hasm: bool, o: Ordinate, v: real)
    returns (ok: bool, r: Point4D)
    requires Get(p1, o) != Get(p2, o)
    ensures ok == Between(v, Get(p1, o), Get(p2, o))
    ensures !ok ==> r == r0
    ensures ok ==> Stored(r, hasz, hasm) == Stored(Cut(p1, p2, o, v), hasz, hasm)
    ensures (!hasz ==> r.z == r0.z) && (!hasm ==> r.m == r0.m)
  {
    hide Lerp, Mix;
    r := r0;
    var p1value, p2value := Get(p1, o), Get(p2, o);
    if (if p1value < p2value then p1value else p2value) > v || (if p1value > p2value then p1value else p2value) < v {
      return false, r;
    }
    var quotient := (v - p1value) / (p2value - p1value);
    ghost var l := CutParameter(p1, p2, o, v);
    DivideBack(v - p1value, p2value - p1value);
    SameParameter(p1, p2, o, v, quotient, l);
    var proportion := if quotient < 0.0 then -quotient else quotient;
    var dims := [X, Y, Z, M];
    for i := 0 to 4
      invariant forall k :: 0 <= k < i && HasDim(dims[k], hasz, hasm)
                  ==> Get(r, dims[k]) == Get(Lerp(p1, p2, proportion), dims[k])
      invariant (!hasz ==> r.z == r0.z) && (!hasm ==> r.m == r0.m)
    {
      if (dims[i] == Z && !hasz) || (dims[i] == M && !hasm) {
        continue;
      }
      LerpOrdinates(p1, p2, proportion, dims[i]);
      var newordinate := Get(p1, dims[i]) + proportion * (Get(p2, dims[i]) - Get(p1, dims[i]));
      r := Set(r, dims[i], newordinate);
    }
    forall d | HasDim(d, hasz, hasm)
      ensures Get(r, d) == Get(Lerp(p1, p2, proportion), d)
    {
      assert d == dims[0] || d == dims[1] || d == dims[2] || d == dims[3];
    }
    OrdinatesDecide(r, Lerp(p1, p2, proportion), hasz, hasm);
    return true, r;
  }

  /** The output collection: parts of one vertex are points and turn the multi-line
      into a generic collection. */
  datatype Collection = Collection(generic: bool, geoms: seq<seq<Point4D>>)

  datatype ClipResult = Clipped(parts: Collection) | NoSuchOrdinate

  /** All points drawn by the parts. */
  ghost function Cover(geoms: seq<seq<Point4D>>): iset<Point4D> {
    if geoms == [] then iset{} else Cover(geoms[..|geoms| - 1]) + Path(geoms[|geoms| - 1])
  }

  lemma CoverAppend(geoms: seq<seq<Point4D>>, g: seq<Point4D>)
    ensures Cover(geoms + [g]) == Cover(geoms) + Path(g)
  {
    assert (geoms + [g])[..|geoms|] == geoms;
  }

  ghost predicate WellFormed(c: Collection) {
    && (forall g :: g in c.geoms ==> g != [])
    && (c.generic <==> exists g :: g in c.geoms && |g| == 1)
  }

  lemma NothingYet(o: Ordinate, from: real, to: real)
    ensures WellFormed(Collection(false, []))
    ensures Cover([]) == InRange(Path([]), o, from, to) == iset{}
  {
  }

  /** Save a finished part, as a point or as a line. */
  function Saved(c: Collection, g: seq<Point4D>): (r: Collection)
    requires g != []
    ensures WellFormed(c) ==> WellFormed(r)
    ensures Cover(r.geoms) == Cover(c.geoms) + Path(g)
  {
    var r := Collection(if |g| == 1 then true else c.generic, c.geoms + [g]);
    CoverAppend(c.geoms, g);
    assert g in r.geoms;
    assert forall h :: h in c.geoms ==> h in r.geoms;
    r
  }

  predicate Normal(p: Point4D, hasz: bool, hasm: bool) {
    Stored(p, hasz, hasm) == p
  }

  lemma CutIsNormal(q: Point4D, p: Point4D, o: Ordinate, v: real, hasz: bool, hasm: bool)
    requires Get(q, o) != Get(p, o) && Normal(q, hasz, hasm) && Normal(p, hasz, hasm)
    ensures Normal(Cut(q, p, o, v), hasz, hasm)
  {
    hide Get;
  }

  predicate Inside(p: Point4D, o: Ordinate, from: real, to: real) {
    from <= Get(p, o) <= to
  }

  /** added_last_point after a vertex p: 0 outside, 1 strictly inside, 2 on a bound. */
  function StateOf(p: Point4D, o: Ordinate, from: real, to: real): int {
    if !Inside(p, o, from, to) then 0 else if Get(p, o) == from || Get(p, o) == to then 2 else 1
  }

  lemma StateInside(p: Point4D, o: Ordinate, from: real, to: real)
    requires Inside(p, o, from, to)
    ensures StateOf(p, o, from, to) == if Get(p, o) == from || Get(p, o) == to then 2 else 1
  {
  }

  lemma StateOutside(p: Point4D, o: Ordinate, from: real, to: real)
    requires !Inside(p, o, from, to)
    ensures StateOf(p, o, from, to) == 0
  {
  }

  lemma PrefixStep(line: seq<Point4D>, i: nat, o: Ordinate, from: real, to: real)
    requires i < |line|
    ensures InRange(Path(line[..i+1]), o, from, to)
            == InRange(Path(line[..i]), o, from, to)
               + (if i > 0 then InRange(Seg(line[i-1], line[i]), o, from, to)
                  else if Inside(line[i], o, from, to) then iset{line[i]} else iset{})
  {
    hide Path, Seg;
    PathAppend(line[..i], line[i]);
    assert line[..i] + [line[i]] == line[..i+1];
    if i == 0 {
      EmptyPath();
    }
  }

  lemma EmptyPath()
    ensures Path([]) == iset{}
  {
  }

  /** The part under construction: a writable array of the line's dimensions ending in p. */
  ghost predicate Open(dp: PointArray, p: Point4D, hasz: bool, hasm: bool)
    reads dp, dp.points
  {
    && dp.Valid() && !dp.readonly && dp.hasz == hasz && dp.hasm == hasm
    && dp.Contents() != [] && dp.Contents()[dp.npoints - 1] == p
    && forall q :: q in dp.Contents() ==> q == Stored(q, hasz, hasm)
  }

  /** Where a segment from q, out of range, to p comes into the range, or meets it. */
  function Crossing(q: Point4D, p: Point4D, o: Ordinate, from: real, to: real): Point4D
    requires Get(q, o) != Get(p, o)
  {
    Cut(q, p, o, if Get(q, o) > to then to else from)
  }

  /** A segment that passes the whole range. */
  predicate Hops(q: Point4D, p: Point4D, o: Ordinate, from: real, to: real) {
    (Get(q, o) < from && Get(p, o) > to) || (Get(q, o) > to && Get(p, o) < from)
  }

  /** The part such a segment leaves: two vertices, in its direction. */
  function HopPart(q: Point4D, p: Point4D, o: Ordinate, from: real, to: real): seq<Point4D>
    requires Get(q, o) != Get(p, o)
  {
    var (v1, v2) := if Get(q, o) < from then (from, to) else (to, from);
    [Cut(p, q, o, v1), Cut(p, q, o, v2)]
  }

  // ---- Which stretches of the line are kept ----

  ghost predicate InAt(line: seq<Point4D>, x: real, o: Ordinate, from: real, to: real)
    requires 0.0 <= x <= |line| as real - 1.0
  {
    Inside(PointAt(line, x), o, from, to)
  }

  ghost predicate Covered(spans: seq<Span>, x: real) {
    exists k :: 0 <= k < |spans| && spans[k].lo <= x <= spans[k].hi
  }

  /** A single position within an edge. */
  predicate WithinEdge(s: Span) { s.lo == s.hi && s.lo.Floor as real != s.lo }

  /** A part is a stretch of the line; of a single position within an edge it is a line of
      two equal points, which happens only when the range is one value. */
  ghost predicate PartOf(line: seq<Point4D>, s: Span, g: seq<Point4D>, from: real, to: real) {
    && SpanOf(line, s)
    && g == (if WithinEdge(s) then [PointAt(line, s.lo), PointAt(line, s.lo)] else Stretch(line, s))
    && (WithinEdge(s) ==> from == to)
  }

  ghost predicate InOrder(spans: seq<Span>) {
    forall j, k :: 0 <= j < k < |spans| ==> spans[j].hi < spans[k].lo
  }

  ghost predicate PartsOf(line: seq<Point4D>, spans: seq<Span>, geoms: seq<seq<Point4D>>, from: real, to: real) {
    |spans| == |geoms| && forall k :: 0 <= k < |spans| ==> PartOf(line, spans[k], geoms[k], from, to)
  }

  /** The parts are, in the order of the line, the stretches on which the ordinate is in
      range: no position in range is missed, none out of range is kept, none is kept twice. */
  ghost predicate Traces(line: seq<Point4D>, spans: seq<Span>, geoms: seq<seq<Point4D>>, o: Ordinate, from: real, to: real) {
    && PartsOf(line, spans, geoms, from, to) && InOrder(spans)
    && forall x :: 0.0 <= x <= |line| as real - 1.0 ==> (InAt(line, x, o, from, to) <==> Covered(spans, x))
  }

  /** The same after i vertices, with a part open from lo on, or none. */
  ghost predicate TracedUntil(line: seq<Point4D>, i: nat, spans: seq<Span>, geoms: seq<seq<Point4D>>, open: bool, lo: real,
                              pts: seq<Point4D>, o: Ordinate, from: real, to: real) {
    && i <= |line| && PartsOf(line, spans, geoms, from, to) && InOrder(spans)
    && (i == 0 ==> spans == [] && !open)
    && (forall k :: 0 <= k < |spans| ==> spans[k].hi < if open then lo else i as real - 1.0)
    && (open ==> 0.0 <= lo <= i as real - 1.0 && pts == Run(line, lo, i))
    && forall x :: 0.0 <= x <= i as real - 1.0 ==> (InAt(line, x, o, from, to) <==> Covered(spans, x) || (open && lo <= x))
  }

  /** The fraction at which a segment from q, out of range, meets the range. */
  lemma EntryFraction(q: Point4D, p: Point4D, o: Ordinate, from: real, to: real) returns (u: real)
    requires from <= to && !Inside(q, o, from, to) && (Inside(p, o, from, to) || Hops(q, p, o, from, to))
    ensures 0.0 < u <= 1.0 && Lerp(q, p, u) == Crossing(q, p, o, from, to)
    ensures u*Rise(q, p, o) == (if Get(q, o) > to then to else from) - Get(q, o)
    ensures !Inside(p, o, from, to) ==> u < 1.0
  {
    hide Lerp, Get, Cut;
    var b := if Get(q, o) > to then to else from;
    u := CutParameter(q, p, o, b);
    NotAtEnd(u, Rise(q, p, o), b - Get(q, o));
  }

  /** The fraction at which a segment to p, out of range, leaves the range. */
  lemma ExitFraction(q: Point4D, p: Point4D, o: Ordinate, from: real, to: real) returns (v: real)
    requires from <= to && !Inside(p, o, from, to) && (Inside(q, o, from, to) || Hops(q, p, o, from, to))
    ensures 0.0 <= v < 1.0 && Lerp(q, p, v) == Crossing(p, q, o, from, to)
    ensures v*Rise(q, p, o) == (if Get(p, o) > to then to else from) - Get(q, o)
  {
    hide Lerp, Get, Cut;
    var b := if Get(p, o) > to then to else from;
    v := CutParameter(q, p, o, b);
    NotAtEnd(v, Rise(q, p, o), b - Get(q, o));
    CutReversed(q, p, o, b);
  }

  lemma HopIsCrossings(q: Point4D, p: Point4D, o: Ordinate, from: real, to: real)
    requires from <= to && Hops(q, p, o, from, to)
    ensures HopPart(q, p, o, from, to) == [Crossing(q, p, o, from, to), Crossing(p, q, o, from, to)]
  {
    hide Get, Cut;
    CutReversed(q, p, o, if Get(q, o) > to then to else from);
  }

  lemma AlongSegment(q: Point4D, p: Point4D, o: Ordinate, t: real)
    ensures Get(Lerp(q, p, t), o) == Along(Get(q, o), Rise(q, p, o), t)
  {
    hide Lerp, Get, Rise;
    OrdinateAlong(q, p, o, t);
  }

  /** The fractions of a segment in range are those from u to v. */
  ghost predicate KeptFractions(q: Point4D, p: Point4D, o: Ordinate, from: real, to: real, u: real, v: real) {
    forall t :: 0.0 <= t <= 1.0 ==> (Inside(Lerp(q, p, t), o, from, to) <==> u <= t <= v)
  }

  lemma FractionsFrom(q: Point4D, p: Point4D, o: Ordinate, from: real, to: real, u: real, v: real)
    requires forall t :: 0.0 <= t <= 1.0 ==> (from <= Along(Get(q, o), Rise(q, p, o), t) <= to <==> u <= t <= v)
    ensures KeptFractions(q, p, o, from, to, u, v)
  {
    hide Lerp, Get, Rise, Along;
    forall t | 0.0 <= t <= 1.0
      ensures Inside(Lerp(q, p, t), o, from, to) <==> u <= t <= v
    {
      AlongSegment(q, p, o, t);
    }
  }

  lemma StaysInside(q: Point4D, p: Point4D, o: Ordinate, from: real, to: real)
    requires Inside(q, o, from, to) && Inside(p, o, from, to)
    ensures KeptFractions(q, p, o, from, to, 0.0, 1.0)
  {
    hide Lerp, Get;
    Enters(Get(q, o), Rise(q, p, o), from, to, 0.0, 1.0);
    FractionsFrom(q, p, o, from, to, 0.0, 1.0);
  }

  lemma StaysOutside(q: Point4D, p: Point4D, o: Ordinate, from: real, to: real)
    requires !Inside(q, o, from, to) && !Inside(p, o, from, to) && !Hops(q, p, o, from, to) && from <= to
    ensures KeptFractions(q, p, o, from, to, 1.0, 0.0)
  {
    hide Lerp, Get;
    StaysOut(Get(q, o), Rise(q, p, o), from, to);
    FractionsFrom(q, p, o, from, to, 1.0, 0.0);
  }

  lemma ComesIn(q: Point4D, p: Point4D, o: Ordinate, from: real, to: real) returns (u: real)
    requires !Inside(q, o, from, to) && Inside(p, o, from, to)
    ensures 0.0 < u <= 1.0 && Lerp(q, p, u) == Crossing(q, p, o, from, to)
    ensures KeptFractions(q, p, o, from, to, u, 1.0)
  {
    hide Lerp, Get, Crossing;
    u := EntryFraction(q, p, o, from, to);
    Enters(Get(q, o), Rise(q, p, o), from, to, u, 1.0);
    FractionsFrom(q, p, o, from, to, u, 1.0);
  }

  lemma GoesOut(q: Point4D, p: Point4D, o: Ordinate, from: real, to: real) returns (v: real)
    requires Inside(q, o, from, to) && !Inside(p, o, from, to)
    ensures 0.0 <= v < 1.0 && Lerp(q, p, v) == Crossing(p, q, o, from, to)
    ensures KeptFractions(q, p, o, from, to, 0.0, v)
  {
    hide Lerp, Get, Crossing;
    v := ExitFraction(q, p, o, from, to);
    Enters(Get(q, o), Rise(q, p, o), from, to, 0.0, v);
    FractionsFrom(q, p, o, from, to, 0.0, v);
  }

  lemma Passes(q: Point4D, p: Point4D, o: Ordinate, from: real, to: real) returns (u: real, v: real)
    requires Hops(q, p, o, from, to) && from <= to
    ensures 0.0 < u <= v < 1.0 && [Lerp(q, p, u), Lerp(q, p, v)] == HopPart(q, p, o, from, to) && (u == v ==> from == to)
    ensures KeptFractions(q, p, o, from, to, u, v)
  {
    hide Lerp, Get, Crossing, HopPart;
    u := EntryFraction(q, p, o, from, to);
    v := ExitFraction(q, p, o, from, to);
    HopIsCrossings(q, p, o, from, to);
    Enters(Get(q, o), Rise(q, p, o), from, to, u, v);
    FractionsFrom(q, p, o, from, to, u, v);
  }

  function Along(a: real, g: real, t: real): real { a + t*g }

  lemma NotAtEnd(l: real, g: real, x: real)
    requires l*g == x
    ensures l == 0.0 ==> x == 0.0
    ensures l == 1.0 ==> x == g
  {
  }

  lemma StaysOut(a: real, g: real, from: real, to: real)
    requires (a < from && a + g < from) || (a > to && a + g > to)
    ensures forall t :: 0.0 <= t <= 1.0 ==> !(from <= Along(a, g, t) <= to)
  {
    forall t | 0.0 <= t <= 1.0
      ensures !(from <= Along(a, g, t) <= to)
    {
      BetweenScales(t, 0.0, 1.0, a, g);
    }
  }

  /** On a segment that meets the range, the fractions in range lie between two cuts. */
  lemma Enters(a: real, g: real, from: real, to: real, u: real, v: real)
    requires from <= to
    requires !(a < from && a + g < from) && !(a > to && a + g > to)
    requires if from <= a <= to then u == 0.0 else u*g == (if a > to then to else from) - a
    requires if from <= a + g <= to then v == 1.0 else v*g == (if a + g > to then to else from) - a
    ensures forall t :: 0.0 <= t <= 1.0 ==> (from <= Along(a, g, t) <= to <==> u <= t <= v)
    ensures !(from <= a <= to) && !(from <= a + g <= to) ==> u <= v && (u == v ==> from == to)
  {
    forall t | 0.0 <= t <= 1.0
      ensures from <= Along(a, g, t) <= to <==> u <= t <= v
    {
      BetweenScales(t, 0.0, 1.0, a, g);
      Beyond(a, g, u, t);
      Beyond(a, g, v, t);
    }
    if !(from <= a <= to) && !(from <= a + g <= to) {
      Beyond(a, g, u, v);
    }
  }

  lemma Beyond(a: real, g: real, u: real, t: real)
    ensures g > 0.0 ==> (Along(a, g, t) < Along(a, g, u) <==> t < u)
    ensures g < 0.0 ==> (Along(a, g, t) > Along(a, g, u) <==> t < u)
    ensures g != 0.0 ==> (Along(a, g, t) == Along(a, g, u) <==> t == u)
  {
    assert Along(a, g, u) - Along(a, g, t) == (u - t)*g;
    if t < u {
      var z := ProductPositive(u - t, if g > 0.0 then g else if g < 0.0 then -g else 1.0);
    } else if t > u {
      var z := ProductPositive(t - u, if g > 0.0 then g else if g < 0.0 then -g else 1.0);
    }
  }

  /** The positions of a part's vertices: increasing along its stretch, or one position
      twice, which happens only when the range is one value. */
  ghost predicate Placed(line: seq<Point4D>, s: Span, g: seq<Point4D>, at: seq<real>, from: real, to: real)
    requires SpanOf(line, s)
  {
    if WithinEdge(s) then from == to && at == [s.lo, s.lo] && g == [PointAt(line, s.lo), PointAt(line, s.lo)]
    else Positions(line, at, g, s.lo, s.hi)
  }

  lemma PartPositions(line: seq<Point4D>, s: Span, g: seq<Point4D>, from: real, to: real) returns (at: seq<real>)
    requires PartOf(line, s, g, from, to)
    ensures Placed(line, s, g, at, from, to)
  {
    hide PointAt, Positions, Stretch;
    if WithinEdge(s) {
      at := [s.lo, s.lo];
    } else {
      at := StretchPositions(line, s);
    }
  }

  /** All positions of a part are in range. */
  lemma PartInRange(line: seq<Point4D>, spans: seq<Span>, geoms: seq<seq<Point4D>>, o: Ordinate, from: real, to: real, k: int)
    requires Traces(line, spans, geoms, o, from, to) && 0 <= k < |spans|
    ensures SpanOf(line, spans[k])
    ensures forall x :: spans[k].lo <= x <= spans[k].hi ==> InAt(line, x, o, from, to)
  {
    hide InAt, Stretch;
    assert PartOf(line, spans[k], geoms[k], from, to);
    forall x | spans[k].lo <= x <= spans[k].hi
      ensures InAt(line, x, o, from, to)
    {
      assert Covered(spans, x);
    }
  }

  /** Between two parts there is a position out of range. */
  lemma GapBetween(line: seq<Point4D>, spans: seq<Span>, geoms: seq<seq<Point4D>>, o: Ordinate, from: real, to: real, k: int)
    returns (x: real)
    requires Traces(line, spans, geoms, o, from, to) && 0 < k < |spans|
    ensures 0.0 <= x <= |line| as real - 1.0 && spans[k-1].hi < x < spans[k].lo && !InAt(line, x, o, from, to)
  {
    hide InAt, Stretch;
    assert PartOf(line, spans[k], geoms[k], from, to) && PartOf(line, spans[k-1], geoms[k-1], from, to);
    x := (spans[k-1].hi + spans[k].lo) / 2.0;
    BetweenSpans(spans, k, x);
  }

  /** What that means for the vertices: each has its position on the line, and within a part
      positions increase strictly, unless it is a single position within an edge. */
  lemma AllPositions(line: seq<Point4D>, spans: seq<Span>, geoms: seq<seq<Point4D>>, o: Ordinate, from: real, to: real)
    returns (at: seq<seq<real>>)
    requires Traces(line, spans, geoms, o, from, to)
    ensures |at| == |geoms| == |spans|
    ensures forall k :: 0 <= k < |geoms| ==> SpanOf(line, spans[k]) && Placed(line, spans[k], geoms[k], at[k], from, to)
  {
    hide Placed, PartOf, InOrder, InAt, Covered;
    at := [];
    for n := 0 to |geoms|
      invariant |at| == n
      invariant forall k :: 0 <= k < n ==> SpanOf(line, spans[k]) && Placed(line, spans[k], geoms[k], at[k], from, to)
    {
      PartInRange(line, spans, geoms, o, from, to, n);
      var more := PartPositions(line, spans[n], geoms[n], from, to);
      at := at + [more];
    }
  }

  lemma BetweenSpans(spans: seq<Span>, k: int, x: real)
    requires InOrder(spans) && 0 < k < |spans| && spans[k-1].hi < x < spans[k].lo
    requires forall j :: 0 <= j < |spans| ==> spans[j].lo <= spans[j].hi
    ensures !Covered(spans, x)
  {
    forall j | 0 <= j < |spans|
      ensures !(spans[j].lo <= x <= spans[j].hi)
    {
      if j < k - 1 {
        assert spans[j].hi < spans[k-1].lo;
      } else if j > k {
        assert spans[k].hi < spans[j].lo;
      }
    }
  }

  // ---- One vertex further ----

  lemma EdgePosition(line: seq<Point4D>, i: nat, o: Ordinate, from: real, to: real, u: real, v: real, x: real)
    requires 0 < i < |line| && KeptFractions(line[i-1], line[i], o, from, to, u, v)
    requires i as real - 1.0 <= x <= i as real
    ensures InAt(line, x, o, from, to) <==> i as real - 1.0 + u <= x <= i as real - 1.0 + v
  {
    hide Lerp, PointAt, Inside;
    var t := x - (i as real - 1.0);
    AtEdge(line, i - 1, t);
    assert (i - 1) as real + t == x;
  }

  lemma Uncovered(spans: seq<Span>, bound: real, x: real)
    requires (forall k :: 0 <= k < |spans| ==> spans[k].hi < bound) && bound <= x
    ensures !Covered(spans, x)
  {
  }

  lemma CoveredAppend(spans: seq<Span>, s: Span, x: real)
    ensures Covered(spans + [s], x) <==> Covered(spans, x) || s.lo <= x <= s.hi
  {
    var more := spans + [s];
    if Covered(spans, x) {
      var k :| 0 <= k < |spans| && spans[k].lo <= x <= spans[k].hi;
      assert more[k] == spans[k];
    }
    assert more[|spans|] == s;
  }

  lemma PartsAppend(line: seq<Point4D>, spans: seq<Span>, geoms: seq<seq<Point4D>>, s: Span, g: seq<Point4D>, from: real, to: real)
    requires PartsOf(line, spans, geoms, from, to) && PartOf(line, s, g, from, to) && InOrder(spans)
    requires forall k :: 0 <= k < |spans| ==> spans[k].hi < s.lo
    ensures PartsOf(line, spans + [s], geoms + [g], from, to) && InOrder(spans + [s])
  {
    hide PartOf;
  }

  /** The first vertex. */
  lemma TraceFirst(line: seq<Point4D>, o: Ordinate, from: real, to: real)
    requires line != []
    ensures TracedUntil(line, 1, [], [], Inside(line[0], o, from, to), 0.0, [line[0]], o, from, to)
  {
    hide Lerp, PointAt, Inside;
    AtVertex(line, 0);
    RunStart(line, 0.0, 0);
    forall x | 0.0 <= x <= 0.0
      ensures InAt(line, x, o, from, to) <==> Inside(line[0], o, from, to)
    {
    }
  }

  /** From a vertex in range to one in range: the open part grows. */
  lemma TraceOn(line: seq<Point4D>, i: nat, spans: seq<Span>, geoms: seq<seq<Point4D>>, lo: real, pts: seq<Point4D>,
                o: Ordinate, from: real, to: real)
    requires 0 < i < |line| && TracedUntil(line, i, spans, geoms, true, lo, pts, o, from, to)
    requires Inside(line[i-1], o, from, to) && Inside(line[i], o, from, to)
    ensures TracedUntil(line, i + 1, spans, geoms, true, lo, Appended(pts, line[i]), o, from, to)
  {
    hide Lerp, PointAt, Inside, InAt, PartsOf, Covered, Run;
    StaysInside(line[i-1], line[i], o, from, to);
    RunStep(line, lo, i);
    forall x | i as real - 1.0 <= x <= i as real
      ensures InAt(line, x, o, from, to)
    {
      EdgePosition(line, i, o, from, to, 0.0, 1.0, x);
    }
  }

  /** Into the range: a part is opened where the segment meets it. */
  lemma TraceIn(line: seq<Point4D>, i: nat, spans: seq<Span>, geoms: seq<seq<Point4D>>, lo0: real, pts0: seq<Point4D>,
                o: Ordinate, from: real, to: real)
    returns (lo: real)
    requires 0 < i < |line| && TracedUntil(line, i, spans, geoms, false, lo0, pts0, o, from, to)
    requires !Inside(line[i-1], o, from, to) && Inside(line[i], o, from, to)
    ensures TracedUntil(line, i + 1, spans, geoms, true, lo, Appended([Crossing(line[i-1], line[i], o, from, to)], line[i]),
                        o, from, to)
  {
    hide Lerp, PointAt, Inside, InAt, PartsOf, Covered, Run, Appended;
    var u := ComesIn(line[i-1], line[i], o, from, to);
    lo := i as real - 1.0 + u;
    AtEdge(line, i - 1, u);
    assert (i - 1) as real + u == lo;
    CeilOf(lo, i);
    RunStart(line, lo, i);
    forall x | i as real - 1.0 <= x <= i as real
      ensures InAt(line, x, o, from, to) <==> lo <= x
      ensures !Covered(spans, x)
    {
      EdgePosition(line, i, o, from, to, u, 1.0, x);
      Uncovered(spans, i as real - 1.0, x);
    }
  }

  lemma CeilOf(x: real, i: int)
    requires i as real - 1.0 < x <= i as real
    ensures Ceil(x) == i
  {
  }

  lemma FloorOf(x: real, i: int)
    requires i as real <= x < i as real + 1.0
    ensures x.Floor == i
  {
  }

  /** Out of the range: the open part is closed where the segment leaves it. */
  lemma TraceOut(line: seq<Point4D>, i: nat, spans: seq<Span>, geoms: seq<seq<Point4D>>, lo: real, pts: seq<Point4D>,
                 o: Ordinate, from: real, to: real)
    returns (s: Span)
    requires 0 < i < |line| && TracedUntil(line, i, spans, geoms, true, lo, pts, o, from, to)
    requires Inside(line[i-1], o, from, to) && !Inside(line[i], o, from, to)
    ensures TracedUntil(line, i + 1, spans + [s], geoms + [Appended(pts, Crossing(line[i], line[i-1], o, from, to))], false, 0.0, [],
                        o, from, to)
  {
    hide Lerp, PointAt, InAt, PartsOf, Covered, Run, Appended, Crossing, Get;
    var v := GoesOut(line[i-1], line[i], o, from, to);
    s := Span(lo, i as real - 1.0 + v);
    AtEdge(line, i - 1, v);
    assert (i - 1) as real + v == s.hi;
    FloorOf(s.hi, i - 1);
    VertexEnd(lo, i - 1, s);
    PartsAppend(line, spans, geoms, s, Appended(pts, Crossing(line[i], line[i-1], o, from, to)), from, to);
    forall x | 0.0 <= x <= i as real
      ensures InAt(line, x, o, from, to) <==> Covered(spans + [s], x)
    {
      CoveredAppend(spans, s, x);
      if x >= i as real - 1.0 {
        EdgePosition(line, i, o, from, to, 0.0, v, x);
        Uncovered(spans, lo, x);
      }
    }
  }

  lemma VertexEnd(lo: real, k: nat, s: Span)
    requires s.lo == lo <= k as real <= s.hi
    ensures !WithinEdge(s)
  {
    if s.lo == s.hi {
      FloorOf(s.lo, k);
    }
  }

  /** Past the whole range: a part of two vertices. */
  lemma TraceHop(line: seq<Point4D>, i: nat, spans: seq<Span>, geoms: seq<seq<Point4D>>, lo0: real, pts0: seq<Point4D>,
                 o: Ordinate, from: real, to: real)
    returns (s: Span)
    requires 0 < i < |line| && TracedUntil(line, i, spans, geoms, false, lo0, pts0, o, from, to)
    requires Hops(line[i-1], line[i], o, from, to) && from <= to
    ensures TracedUntil(line, i + 1, spans + [s], geoms + [HopPart(line[i-1], line[i], o, from, to)], false, 0.0, [], o, from, to)
  {
    hide Lerp, PointAt, InAt, PartsOf, Covered, HopPart, Get;
    var u, v := Passes(line[i-1], line[i], o, from, to);
    s := Span(i as real - 1.0 + u, i as real - 1.0 + v);
    HopSpan(line, i, s, u, v, o, from, to);
    PartsAppend(line, spans, geoms, s, HopPart(line[i-1], line[i], o, from, to), from, to);
    forall x | 0.0 <= x <= i as real
      ensures InAt(line, x, o, from, to) <==> Covered(spans + [s], x)
    {
      CoveredAppend(spans, s, x);
      if x >= i as real - 1.0 {
        EdgePosition(line, i, o, from, to, u, v, x);
        Uncovered(spans, i as real - 1.0, x);
      }
    }
  }

  lemma HopSpan(line: seq<Point4D>, i: nat, s: Span, u: real, v: real, o: Ordinate, from: real, to: real)
    requires 0 < i < |line| && Hops(line[i-1], line[i], o, from, to) && from <= to && 0.0 < u <= v < 1.0 && (u == v ==> from == to)
    requires s == Span(i as real - 1.0 + u, i as real - 1.0 + v)
    requires [Lerp(line[i-1], line[i], u), Lerp(line[i-1], line[i], v)] == HopPart(line[i-1], line[i], o, from, to)
    ensures PartOf(line, s, HopPart(line[i-1], line[i], o, from, to), from, to)
  {
    hide Lerp, PointAt, Get, HopPart;
    AtEdge(line, i - 1, u);
    AtEdge(line, i - 1, v);
    assert (i - 1) as real + u == s.lo && (i - 1) as real + v == s.hi;
    FloorOf(s.lo, i - 1);
    FloorOf(s.hi, i - 1);
    CeilOf(s.lo, i);
    assert line[i..i] == [];
    if u != v {
      ApartOnSegment(line[i-1], line[i], o, u, v);
    }
  }

  lemma ApartOnSegment(q: Point4D, p: Point4D, o: Ordinate, u: real, v: real)
    requires Get(q, o) != Get(p, o) && u != v
    ensures Lerp(q, p, u) != Lerp(q, p, v)
  {
    hide Lerp, Get;
    OrdinateAlong(q, p, o, u);
    OrdinateAlong(q, p, o, v);
    if u*Rise(q, p, o) == v*Rise(q, p, o) {
      Cancel(u, v, Rise(q, p, o));
    }
  }

  /** Outside all along. */
  lemma TracePast(line: seq<Point4D>, i: nat, spans: seq<Span>, geoms: seq<seq<Point4D>>, lo0: real, pts0: seq<Point4D>,
                  o: Ordinate, from: real, to: real)
    requires 0 < i < |line| && TracedUntil(line, i, spans, geoms, false, lo0, pts0, o, from, to) && from <= to
    requires !Inside(line[i-1], o, from, to) && !Inside(line[i], o, from, to) && !Hops(line[i-1], line[i], o, from, to)
    ensures TracedUntil(line, i + 1, spans, geoms, false, 0.0, [], o, from, to)
  {
    hide Lerp, PointAt, Inside, InAt, PartsOf, Covered;
    StaysOutside(line[i-1], line[i], o, from, to);
    forall x | i as real - 1.0 <= x <= i as real
      ensures !InAt(line, x, o, from, to) && !Covered(spans, x)
    {
      EdgePosition(line, i, o, from, to, 1.0, 0.0, x);
      Uncovered(spans, i as real - 1.0, x);
    }
  }

  /** The next vertex is in range. */
  lemma TraceInside(line: seq<Point4D>, i: nat, spans: seq<Span>, geoms: seq<seq<Point4D>>, open: bool, lo: real, pts: seq<Point4D>,
                    o: Ordinate, from: real, to: real)
    returns (lo': real)
    requires i < |line| && TracedUntil(line, i, spans, geoms, open, lo, pts, o, from, to)
    requires (open <==> i > 0 && Inside(line[i-1], o, from, to)) && Inside(line[i], o, from, to)
    requires i == 0 ==> geoms == []
    ensures TracedUntil(line, i + 1, spans, geoms, true, lo',
                        if open then Appended(pts, line[i])
                        else if i > 0 then Appended([Crossing(line[i-1], line[i], o, from, to)], line[i])
                        else [line[i]], o, from, to)
  {
    hide Crossing, Get, Appended;
    lo' := lo;
    if i == 0 {
      TraceFirst(line, o, from, to);
      assert spans == [];
      lo' := 0.0;
    } else {
      hide TracedUntil;
      if open {
        TraceOn(line, i, spans, geoms, lo, pts, o, from, to);
      } else {
        lo' := TraceIn(line, i, spans, geoms, lo, pts, o, from, to);
      }
    }
  }

  /** The next vertex is out of range. */
  lemma TraceOutside(line: seq<Point4D>, i: nat, spans: seq<Span>, geoms: seq<seq<Point4D>>, open: bool, lo: real, pts: seq<Point4D>,
                     o: Ordinate, from: real, to: real)
    returns (all: seq<Span>)
    requires i < |line| && TracedUntil(line, i, spans, geoms, open, lo, pts, o, from, to) && from <= to
    requires (open <==> i > 0 && Inside(line[i-1], o, from, to)) && !Inside(line[i], o, from, to)
    requires i == 0 ==> geoms == []
    ensures TracedUntil(line, i + 1, all,
                        if open then geoms + [Appended(pts, Crossing(line[i], line[i-1], o, from, to))]
                        else if i > 0 && Hops(line[i-1], line[i], o, from, to) then geoms + [HopPart(line[i-1], line[i], o, from, to)]
                        else geoms, false, 0.0, [], o, from, to)
  {
    hide Crossing, Get, HopPart, Appended;
    all := spans;
    if i == 0 {
      TraceFirst(line, o, from, to);
    } else {
      hide TracedUntil;
      if open {
        var s := TraceOut(line, i, spans, geoms, lo, pts, o, from, to);
        all := spans + [s];
      } else if Hops(line[i-1], line[i], o, from, to) {
        var s := TraceHop(line, i, spans, geoms, lo, pts, o, from, to);
        all := spans + [s];
      } else {
        TracePast(line, i, spans, geoms, lo, pts, o, from, to);
      }
    }
  }

  lemma TraceStart(line: seq<Point4D>, o: Ordinate, from: real, to: real)
    ensures TracedUntil(line, 0, [], [], false, 0.0, [], o, from, to)
  {
  }

  /** At the end an open part is closed. */
  lemma TraceEnd(line: seq<Point4D>, spans: seq<Span>, geoms: seq<seq<Point4D>>, open: bool, lo: real, pts: seq<Point4D>,
                 o: Ordinate, from: real, to: real)
    returns (all: seq<Span>)
    requires TracedUntil(line, |line|, spans, geoms, open, lo, pts, o, from, to)
    ensures Traces(line, all, if open then geoms + [pts] else geoms, o, from, to)
  {
    hide Lerp, PointAt, Inside, InAt, PartsOf, Covered, Run;
    all := spans;
    if open {
      var i := |line|;
      var s := Span(lo, i as real - 1.0);
      all := spans + [s];
      AtVertex(line, i - 1);
      FloorOf(s.hi, i - 1);
      RunEnds(line, lo, i);
      VertexEnd(lo, i - 1, s);
      PartsAppend(line, spans, geoms, s, pts, from, to);
      forall x | 0.0 <= x <= i as real - 1.0
        ensures Covered(all, x) <==> Covered(spans, x) || lo <= x
      {
        CoveredAppend(spans, s, x);
      }
    }
  }

  /** Interpolate between a and b at v and append the point found. */
  method AppendCut(dp: PointArray, a: Point4D, b: Point4D, o: Ordinate, v: real, hasz: bool, hasm: bool)
    requires Get(a, o) != Get(b, o) && Between(v, Get(a, o), Get(b, o))
    requires Normal(a, hasz, hasm) && Normal(b, hasz, hasm)
    requires dp.Valid() && !dp.readonly && dp.hasz == hasz && dp.hasm == hasm
    requires forall q :: q in dp.Contents() ==> q == Stored(q, hasz, hasm)
    modifies dp, dp.points
    ensures Open(dp, Cut(a, b, o, v), hasz, hasm)
    ensures fresh(dp.points) || dp.points == old(dp.points)
    ensures dp.Contents() == Appended(old(dp.Contents()), Cut(a, b, o, v))
    ensures Path(dp.Contents()) == if old(dp.Contents()) == [] then iset{Cut(a, b, o, v)}
            else Path(old(dp.Contents())) + Seg(old(dp.Contents()[dp.npoints - 1]), Cut(a, b, o, v))
  {
    hide Lerp, Seg, Path, Cut, Get, Between;
    var r: Point4D := *;
    var ok;
    ok, r := PointInterpolate(a, b, r, hasz, hasm, o, v);
    CutIsNormal(a, b, o, v, hasz, hasm);
    PathAppended(dp.Contents(), Stored(r, hasz, hasm));
    ok := dp.AppendPoint(r);
  }

  /** The branch for a vertex p in range; q is the vertex before it, if there is one. */
  method StepInside(dp: PointArray?, hasq: bool, q: Point4D, p: Point4D, hasz: bool, hasm: bool,
                    o: Ordinate, from: real, to: real, added: int) returns (d: PointArray)
    requires Normal(p, hasz, hasm) && Normal(q, hasz, hasm) && Inside(p, o, from, to)
    requires added == if hasq then StateOf(q, o, from, to) else 0
    requires if added == 0 then dp == null else dp != null && Open(dp, q, hasz, hasm)
    modifies if dp == null then {} else {dp, dp.points}
    ensures Open(d, p, hasz, hasm) && (d == dp || fresh(d)) && (fresh(d.points) || (d == dp && d.points == old(dp.points)))
    ensures d.Contents() == if dp != null then Appended(old(dp.Contents()), p)
                            else if hasq then Appended([Crossing(q, p, o, from, to)], p) else [p]
    ensures var new' := if hasq then InRange(Seg(q, p), o, from, to) else iset{p};
            Path(d.Contents()) == if dp == null then new' else Path(old(dp.Contents())) + new'
  {
    hide Lerp, Seg, Path, Cut, Get, InRange;
    var ok;
    var ordP, ordQ := Get(p, o), Get(q, o);
    if added == 0 {
      d := new PointArray.Empty(hasz, hasm, 32);
      if hasq {
        Entering(q, p, o, from, to);
        CutEnds(q, p, o);
      }
      if hasq && ((ordP > from && ordP < to) || (ordP == from && ordQ > to) || (ordP == to && ordQ < from)) {
        var v := if ordQ > to then to else from;
        AppendCut(d, q, p, o, v, hasz, hasm);
        AlreadyThere(d.Contents(), p);
      }
    } else {
      d := dp;
      BothInside(q, p, o, from, to);
    }
    PathAppended(d.Contents(), p);
    ok := d.AppendPoint(p);
  }

  /** A one-vertex part followed by p draws one segment. */
  lemma AlreadyThere(pts: seq<Point4D>, p: Point4D)
    requires pts != [] && Path(pts) == iset{pts[|pts| - 1]}
    ensures Path(pts) + Seg(pts[|pts| - 1], p) == Seg(pts[|pts| - 1], p)
  {
    hide Lerp, Path;
    EndsOnSegment(pts[|pts| - 1], p);
  }

  /** The branch for a vertex p out of range: close the open part, if any. */
  method StepOutside(dp0: PointArray?, hasq: bool, q: Point4D, p: Point4D, hasz: bool, hasm: bool,
                     o: Ordinate, from: real, to: real, added: int, out0: Collection) returns (out: Collection)
    requires Normal(p, hasz, hasm) && Normal(q, hasz, hasm) && !Inside(p, o, from, to) && from <= to
    requires added == if hasq then StateOf(q, o, from, to) else 0
    requires if added == 0 then dp0 == null else dp0 != null && Open(dp0, q, hasz, hasm)
    requires WellFormed(out0)
    modifies if dp0 == null then {} else {dp0, dp0.points}
    ensures WellFormed(out)
    ensures out == if dp0 != null then Saved(out0, Appended(old(dp0.Contents()), Crossing(p, q, o, from, to)))
                   else if hasq && Hops(q, p, o, from, to) then Saved(out0, HopPart(q, p, o, from, to))
                   else out0
    ensures Cover(out.geoms) == Cover(out0.geoms)
                                + (if dp0 == null then iset{} else Path(old(dp0.Contents())))
                                + (if hasq then InRange(Seg(q, p), o, from, to) else iset{})
  {
    hide Lerp, Seg, Path, Cut, Get, InRange, Cover, WellFormed;
    out := out0;
    var dp := dp0;
    var ordP, ordQ := Get(p, o), Get(q, o);
    if added != 0 {
      CutEnds(p, q, o);
      CutReversed(q, p, o, if ordP > to then to else from);
    }
    if added == 1 {
      var v := if ordP > to then to else from;
      Leaving(q, p, o, from, to);
      AppendCut(dp, q, p, o, v, hasz, hasm);
    } else if added == 2 {
      Leaving(q, p, o, from, to);
      if from != to && ((ordQ == from && ordP > from) || (ordQ == to && ordP < to)) {
        var v := if ordP > to then to else from;
        AppendCut(dp, q, p, o, v, hasz, hasm);
      } else {
        LastCovered(dp.Contents(), q);
      }
    } else if hasq && ordQ < from && ordP > to {
      dp := Hop(q, p, o, from, to, from, to, hasz, hasm);
    } else if hasq && ordQ > to && ordP < from {
      dp := Hop(q, p, o, from, to, to, from, hasz, hasm);
    } else if hasq {
      SameSide(q, p, o, from, to);
    }
    if dp != null {
      out := Saved(out, dp.Contents());
    }
  }

  lemma LastCovered(pts: seq<Point4D>, q: Point4D)
    requires pts != [] && pts[|pts| - 1] == q
    ensures Path(pts) + iset{q} == Path(pts)
  {
    LastOnPath(pts);
  }

  /** A two-vertex part for a segment that hops over the whole range. */
  method Hop(q: Point4D, p: Point4D, o: Ordinate, from: real, to: real, v1: real, v2: real, hasz: bool, hasm: bool)
    returns (dp: PointArray)
    requires Normal(p, hasz, hasm) && Normal(q, hasz, hasm) && from <= to
    requires (Get(q, o) < from && Get(p, o) > to && v1 == from && v2 == to)
             || (Get(q, o) > to && Get(p, o) < from && v1 == to && v2 == from)
    ensures fresh(dp) && fresh(dp.points) && dp.Valid() && dp.Contents() == HopPart(q, p, o, from, to)
    ensures Path(dp.Contents()) == InRange(Seg(q, p), o, from, to)
  {
    hide Lerp, Seg, Path, Cut, Get, InRange;
    var r: Point4D := *;
    var ok;
    dp := new PointArray.Empty(hasz, hasm, 2);
    ok, r := PointInterpolate(p, q, r, hasz, hasm, o, v1);
    CutIsNormal(p, q, o, v1, hasz, hasm);
    ok := dp.InsertPoint(r, 0);
    ok, r := PointInterpolate(p, q, r, hasz, hasm, o, v2);
    CutIsNormal(p, q, o, v2, hasz, hasm);
    ok := dp.InsertPoint(r, 1);
    Hopping(q, p, o, from, to);
    assert dp.Contents() == [Cut(p, q, o, v1), Cut(p, q, o, v2)];
    PairPath(Cut(p, q, o, v1), Cut(p, q, o, v2));
  }

  lemma PairPath(a: Point4D, b: Point4D)
    ensures Path([a, b]) == Seg(a, b)
  {
    PathAppend([a], b);
    assert [a] + [b] == [a, b];
    EndsOnSegment(a, b);
  }

  /** The parts are, in order and direction, the stretches of the line on which the ordinate
      is in the range; together they draw exactly its points in the range. */
  method ClipToOrdinateRange(line: seq<Point4D>, hasz: bool, hasm: bool, o: Ordinate, from0: real, to0: real)
    returns (res: ClipResult, ghost spans: seq<Span>)
    requires forall p :: p in line ==> Normal(p, hasz, hasm)
    ensures res.NoSuchOrdinate? <==> !HasDim(o, hasz, hasm)
    ensures res.Clipped? ==>
              var (from, to) := if to0 < from0 then (to0, from0) else (from0, to0);
              WellFormed(res.parts) && Cover(res.parts.geoms) == InRange(Path(line), o, from, to)
    ensures res.Clipped? ==>
              var (from, to) := if to0 < from0 then (to0, from0) else (from0, to0);
              Traces(line, spans, res.parts.geoms, o, from, to)
  {
    hide Lerp, Get, Seg, Cut, Stored, WellFormed, InRange, Path, Cover, TracedUntil, Traces, Crossing, HopPart, Hops, Appended;
    spans := [];
    ghost var lo: real, pts: seq<Point4D> := 0.0, [];
    var from, to := from0, to0;
    if to < from {
      from, to := to, from;
    }
    if !HasDim(o, hasz, hasm) {
      return NoSuchOrdinate, spans;
    }
    TraceStart(line, o, from, to);
    var out := Collection(false, []);
    NothingYet(o, from, to);
    var dp: PointArray? := null;
    var addedLastPoint := 0;
    var p, q: Point4D := *, *;
    var i := 0;
    assert line[..0] == [];
    while i < |line|
      invariant 0 <= i <= |line| && WellFormed(out)
      invariant i > 0 ==> p == line[i-1]
      invariant addedLastPoint == if i > 0 then StateOf(line[i-1], o, from, to) else 0
      invariant if addedLastPoint == 0 then dp == null else dp != null && Open(dp, line[i-1], hasz, hasm)
      invariant dp != null ==> fresh(dp) && fresh(dp.points) && pts == dp.Contents()
      invariant i == 0 ==> out.geoms == []
      invariant TracedUntil(line, i, spans, out.geoms, dp != null, lo, pts, o, from, to)
      invariant Cover(out.geoms) + (if dp == null then iset{} else Path(dp.Contents()))
             == InRange(Path(line[..i]), o, from, to)
    {
      PrefixStep(line, i, o, from, to);
      if i > 0 {
        q := p;
      } else {
        q := line[0];
      }
      p := line[i];
      if Inside(p, o, from, to) {
        lo := TraceInside(line, i, spans, out.geoms, dp != null, lo, pts, o, from, to);
        dp := StepInside(dp, i > 0, q, p, hasz, hasm, o, from, to, addedLastPoint);
        addedLastPoint := if Get(p, o) == from || Get(p, o) == to then 2 else 1;
        pts := dp.Contents();
        StateInside(p, o, from, to);
      } else {
        spans := TraceOutside(line, i, spans, out.geoms, dp != null, lo, pts, o, from, to);
        out := StepOutside(dp, i > 0, q, p, hasz, hasm, o, from, to, addedLastPoint, out);
        dp := null;
        lo, pts := 0.0, [];
        addedLastPoint := 0;
        StateOutside(p, o, from, to);
      }
      i := i + 1;
    }
    assert line[..i] == line;
    spans := TraceEnd(line, spans, out.geoms, dp != null, lo, pts, o, from, to);
    if dp != null {
      out := Saved(out, dp.Contents());
    }
    return Clipped(out), spans;
  }
}
