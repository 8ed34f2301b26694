/** Answers taken straight from the bytes (gserialized_is_empty, gserialized_get_type and
    gserialized_peek_gbox_p of src/g_serialized.c) against decoding first. */
module Shortcuts {
  import opened Bytes
  import opened Serialized
  import opened Envelope

  // ---- Emptiness ----

  /** rtgeom_is_empty. */
  predicate IsEmpty(g: Geom) {
    match g
    case Simple(_, _, points) => points.npoints < 1
    case Polygon(_, rings) => |rings| < 1 || rings[0].npoints < 1
    case Collection(_, _, geoms) => forall k :: 0 <= k < |geoms| ==> IsEmpty(geoms[k])
    case Unknown(_, _) => false
  }

  /** The arrays that decide: all but the rings of a polygon behind its first. */
  function Leading(g: Geom): seq<PArray> {
    match g
    case Simple(_, _, points) => [points]
    case Polygon(_, rings) => if |rings| == 0 then [] else [rings[0]]
    case Collection(_, _, geoms) => LeadingOfAll(geoms)
    case Unknown(_, _) => []
  }

  function LeadingOfAll(gs: seq<Geom>): seq<PArray> {
    if |gs| == 0 then [] else LeadingOfAll(gs[..|gs| - 1]) + Leading(gs[|gs| - 1])
  }

  predicate NoVertex(arrays: seq<PArray>) {
    forall k :: 0 <= k < |arrays| ==> arrays[k].npoints == 0
  }

  lemma NoVertexConcat(a: seq<PArray>, b: seq<PArray>)
    ensures NoVertex(a + b) <==> NoVertex(a) && NoVertex(b)
  {
    if NoVertex(a + b) {
      assert forall k :: 0 <= k < |a| ==> (a + b)[k] == a[k];
      assert forall k :: 0 <= k < |b| ==> (a + b)[|a| + k] == b[k];
    }
  }

  /** A geometry is empty exactly when none of them has a vertex. */
  lemma {:induction false} EmptyMeansNoVertex(g: Geom)
    requires Sound(g) && Uniform(g)
    ensures IsEmpty(g) <==> NoVertex(Leading(g))
    decreases g, 1
  {
    hide SoundArray, NoVertex;
    if g.Collection? {
      AllEmptyMeansNoVertex(g.geoms);
    } else {
      FewArrays(Leading(g));
    }
  }

  lemma FewArrays(arrays: seq<PArray>)
    requires |arrays| <= 1
    ensures NoVertex(arrays) <==> arrays == [] || arrays[0].npoints == 0
  {
  }

  lemma {:induction false} AllEmptyMeansNoVertex(gs: seq<Geom>)
    requires forall k :: 0 <= k < |gs| ==> Sound(gs[k]) && Uniform(gs[k])
    ensures (forall k :: 0 <= k < |gs| ==> IsEmpty(gs[k])) <==> NoVertex(LeadingOfAll(gs))
    decreases gs, 0
  {
    hide Sound, Uniform, IsEmpty, Leading, NoVertex;
    if |gs| > 0 {
      var n := |gs| - 1;
      AllEmptyMeansNoVertex(gs[..n]);
      EmptyMeansNoVertex(gs[n]);
      NoVertexConcat(LeadingOfAll(gs[..n]), Leading(gs[n]));
      assert (forall k :: 0 <= k < |gs| ==> IsEmpty(gs[k])) <==> (forall k :: 0 <= k < n ==> IsEmpty(gs[..n][k])) && IsEmpty(gs[n]);
    } else {
      FewArrays(LeadingOfAll(gs));
    }
  }

  /** Every count next to a type that is not a collection's is zero. */
  predicate Countless(g: Geom) {
    match g
    case Simple(_, _, points) => points.npoints == 0
    case Polygon(_, rings) => |rings| == 0
    case Collection(_, _, geoms) => forall k :: 0 <= k < |geoms| ==> Countless(geoms[k])
    case Unknown(_, _) => false
  }

  /** No polygon has a ring. */
  predicate Ringless(g: Geom) {
    match g
    case Polygon(_, rings) => |rings| == 0
    case Collection(_, _, geoms) => forall k :: 0 <= k < |geoms| ==> Ringless(geoms[k])
    case _ => true
  }

  lemma {:induction false} CountlessIsEmptyAndRingless(g: Geom)
    ensures Countless(g) <==> IsEmpty(g) && Ringless(g)
  {
    if g.Collection? {
      forall k | 0 <= k < |g.geoms|
        ensures Countless(g.geoms[k]) <==> IsEmpty(g.geoms[k]) && Ringless(g.geoms[k])
      {
        CountlessIsEmptyAndRingless(g.geoms[k]);
      }
    }
  }

  /** The answer from the bytes is the recursive one, except for an empty geometry with a
      polygon that has rings, the first of them without a vertex. */
  lemma EmptinessAgrees(g: Geom)
    ensures (Countless(g) <==> IsEmpty(g)) <==> (IsEmpty(g) ==> Ringless(g))
  {
    CountlessIsEmptyAndRingless(g);
  }

  /** One such polygon. */
  lemma HollowPolygon(f: Flags)
    ensures var g := Polygon(f, [PArray(f.z, f.m, 0, [])]); IsEmpty(g) && !Countless(g)
  {
  }

  lemma ImagePrefix(gs: seq<Geom>, i: nat, buf: seq<Byte>, at: nat)
    requires i < |gs| && forall k :: 0 <= k < |gs| ==> Sound(gs[k])
    requires At(buf, at, ImageAll(gs))
    ensures At(buf, at + |ImageAll(gs[..i])|, Image(gs[i]))
    ensures ImageAll(gs[..i + 1]) == ImageAll(gs[..i]) + Image(gs[i])
    decreases |gs| - i
  {
    hide At, Image, Sound;
    var k := |gs| - 1;
    AtConcat(buf, at, ImageAll(gs[..k]), Image(gs[k]));
    if i < k {
      ImagePrefix(gs[..k], i, buf, at);
      assert gs[..k][..i] == gs[..i] && gs[..k][..i + 1] == gs[..i + 1];
    } else {
      assert gs[..i + 1] == gs;
    }
  }

  /** The recursion over the bytes, at an offset where a geometry was written. The size
      is meant only for what is empty. */
  method IsEmptyRecurse(p: seq<Byte>, at: nat, ghost g: Geom) returns (lz: nat, isempty: bool)
    requires Sound(g) && Uniform(g) && At(p, at, Image(g))
    ensures isempty == Countless(g)
    ensures isempty ==> lz == |Image(g)|
    decreases g
  {
    hide At, Head, Image, ImageAll;
    CountAt(g, p, at);
    var t, num := U32(p, at), U32(p, at + 4);
    if IsCollectionType(t) {
      ghost var geoms := g.geoms;
      MembersAt(g, p, at);
      lz := 8;
      NoMembers(geoms);
      for i := 0 to num
        invariant lz == 8 + |ImageAll(geoms[..i])|
        invariant forall k :: 0 <= k < i ==> Countless(geoms[k])
      {
        ImagePrefix(geoms, i, p, at + 8);
        var size;
        size, isempty := IsEmptyRecurse(p, at + lz, geoms[i]);
        lz := lz + size;
        if !isempty {
          return lz, false;
        }
      }
      assert geoms[..num] == geoms;
      return lz, true;
    } else {
      return 8, num == 0;
    }
  }

  lemma NoMembers(gs: seq<Geom>)
    ensures gs[..0] == [] && ImageAll([]) == []
  {
  }

  /** The number that follows the type. */
  function Count(g: Geom): nat {
    match g
    case Simple(_, _, points) => points.npoints
    case Polygon(_, rings) => |rings|
    case Collection(_, _, geoms) => |geoms|
    case Unknown(_, _) => 0
  }

  lemma CountAt(g: Geom, buf: seq<Byte>, at: nat)
    requires Sound(g) && Uniform(g) && At(buf, at, Image(g))
    ensures at + 8 <= |buf| && U32(buf, at) == g.Type() && U32(buf, at + 4) == Count(g)
    ensures Count(g) == 0 ==> |Image(g)| == 8
  {
    hide At, Counts, RingData, ArraySize, U32, Head, ImageAll, Ordinates;
    var rest := Image(g)[8..];
    assert Image(g) == Head(g.Type(), Count(g)) + rest;
    AtConcat(buf, at, Head(g.Type(), Count(g)), rest);
    HeadAt(buf, at, g.Type(), Count(g));
    if Count(g) == 0 {
      NoTail(g);
    }
  }

  lemma NoTail(g: Geom)
    requires Sound(g) && Uniform(g) && Count(g) == 0
    ensures |Image(g)| == 8
  {
  }

  lemma MembersAt(g: Geom, buf: seq<Byte>, at: nat)
    requires Sound(g) && g.Collection? && At(buf, at, Image(g))
    ensures At(buf, at + 8, ImageAll(g.geoms))
    ensures |Image(g)| == 8 + |ImageAll(g.geoms)|
  {
    AtConcat(buf, at, Head(g.type_, |g.geoms|), ImageAll(g.geoms));
  }

  /** gserialized_is_empty on a complete serialization. */
  method IsEmptySerialized(s: seq<Byte>, ghost g: Geom, ghost box: Option<Box>, ghost srid: int, ghost rnd: Rounding)
    returns (isempty: bool)
    requires Regular(g, box) && s == Whole(g, box, srid, rnd)
    ensures isempty == Countless(g)
    ensures isempty == IsEmpty(g) <==> (IsEmpty(g) ==> Ringless(g))
  {
    hide Whole, FlagsOf, SridOf, GboxSize, SizeField, Image, Countless, IsEmpty, Ringless;
    WholeParts(g, box, srid, rnd);
    EmptinessAgrees(g);
    var p := 8;
    if FlagsOf(s[7]).box {
      p := p + GboxSize(FlagsOf(s[7]));
    }
    var _, empty := IsEmptyRecurse(s, p, g);
    isempty := empty;
  }

  /** gserialized_get_type. */
  method GetType(s: seq<Byte>, ghost g: Geom, ghost box: Option<Box>, ghost srid: int, ghost rnd: Rounding) returns (t: nat)
    requires Regular(g, box) && s == Whole(g, box, srid, rnd)
    ensures t == g.Type()
  {
    hide Whole, FlagsOf, SridOf, GboxSize, SizeField, Image, Sound, Uniform;
    WholeParts(g, box, srid, rnd);
    var ptr := 8;
    if FlagsOf(s[7]).box {
      ptr := ptr + GboxSize(FlagsOf(s[7]));
    }
    TypeAt(g, s, ptr);
    t := U32(s, ptr);
  }

  // ---- Boxes ----

  /** A box without flags: z and m are there when the geometry has them. */
  datatype Extent = Extent(x: Range, y: Range, z: Option<Range>, m: Option<Range>)

  function Join(a: Range, b: Range): Range {
    Range(if a.lo < b.lo then a.lo else b.lo, if a.hi > b.hi then a.hi else b.hi)
  }

  function JoinOption(a: Option<Range>, b: Option<Range>): Option<Range> {
    if a.Some? && b.Some? then Some(Join(a.value, b.value)) else a
  }

  function Merge(a: Extent, b: Extent): Extent {
    Extent(Join(a.x, b.x), Join(a.y, b.y), JoinOption(a.z, b.z), JoinOption(a.m, b.m))
  }

  /** A single ordinate, read by `dec` from the eight bytes at an offset. */
  function Single(s: seq<Byte>, at: nat, dec: seq<Byte> -> real): Range
    requires at + 8 <= |s|
  {
    var v := dec(s[at..at + 8]);
    Range(v, v)
  }

  /** The vertex at an offset. */
  function Vertex(s: seq<Byte>, at: nat, z: bool, m: bool, dec: seq<Byte> -> real): Extent
    requires at + PointSize(z, m) <= |s|
  {
    Extent(Single(s, at, dec), Single(s, at + 8, dec),
           if z then Some(Single(s, at + 16, dec)) else None,
           if m then Some(Single(s, at + (if z then 24 else 16), dec)) else None)
  }

  /** ptarray_calculate_gbox_cartesian on the bytes of at least one vertex. */
  function ArrayExtent(data: seq<Byte>, z: bool, m: bool, dec: seq<Byte> -> real): Extent
    requires |data| >= PointSize(z, m)
    decreases |data|
  {
    var n := PointSize(z, m);
    if |data| < 2 * n then Vertex(data, 0, z, m, dec)
    else Merge(ArrayExtent(data[..|data| - n], z, m, dec), Vertex(data, |data| - n, z, m, dec))
  }

  /** No arcs. */
  predicate Straight(g: Geom) {
    match g
    case Simple(t, _, _) => t != CIRCSTRINGTYPE
    case Collection(_, _, geoms) => forall k :: 0 <= k < |geoms| ==> Straight(geoms[k])
    case _ => true
  }

  /** rtgeom_calculate_gbox_cartesian. */
  function ExtentOf(g: Geom, dec: seq<Byte> -> real): Option<Extent>
    requires Sound(g) && Straight(g)
    decreases g, 1
  {
    match g
    case Simple(_, _, points) =>
      if points.npoints < 1 then None else Some(ArrayExtent(points.data, points.hasz, points.hasm, dec))
    case Polygon(_, rings) =>
      if |rings| == 0 || rings[0].npoints < 1 then None
      else Some(ArrayExtent(rings[0].data, rings[0].hasz, rings[0].hasm, dec))
    case Collection(_, _, geoms) => ExtentOfAll(geoms, dec)
    case Unknown(_, _) => None
  }

  function ExtentOfAll(gs: seq<Geom>, dec: seq<Byte> -> real): Option<Extent>
    requires forall k :: 0 <= k < |gs| ==> Sound(gs[k]) && Straight(gs[k])
    decreases gs, 0
  {
    if |gs| == 0 then None
    else
      var front := ExtentOfAll(gs[..|gs| - 1], dec);
      var last := ExtentOf(gs[|gs| - 1], dec);
      if last.None? then front else if front.None? then last else Some(Merge(front.value, last.value))
  }

  /** gbox_float_round. */
  function Rounded(e: Extent, rnd: Rounding): Extent {
    Extent(Widened(e.x, rnd), Widened(e.y, rnd), WidenedOption(e.z, rnd), WidenedOption(e.m, rnd))
  }

  datatype Peek = Failure | Success(extent: Extent) | OutOfBounds

  /** A vertex, or two. */
  predicate Short(g: Geom) {
    && g.Simple?
    && ((g.type_ == POINTTYPE && g.points.npoints > 0) || (g.type_ == LINETYPE && g.points.npoints == 2))
  }

  /** What can be answered without decoding. */
  predicate Peekable(g: Geom) {
    || Short(g)
    || (g.Collection? && g.type_ in {MULTIPOINTTYPE, MULTILINETYPE} && |g.geoms| == 1 && Short(g.geoms[0]))
  }

  /** A lone empty point in a multipoint: there are no ordinates to read. */
  predicate Dangling(g: Geom) {
    g.Collection? && g.type_ == MULTIPOINTTYPE && |g.geoms| == 1 && g.geoms[0].Simple? && g.geoms[0].points.npoints == 0
  }

  /** The double with a given number in the data behind the header. */
  method Double(s: seq<Byte>, i: nat, dec: seq<Byte> -> real) returns (v: real)
    requires 16 + 8 * i <= |s|
    ensures Range(v, v) == Single(s, 8 + 8 * i, dec)
  {
    v := dec(s[8 + 8 * i..16 + 8 * i]);
  }

  /** The box of the one vertex that starts at double i. */
  method PeekVertex(s: seq<Byte>, first: nat, f: Flags, dec: seq<Byte> -> real, rnd: Rounding) returns (r: Peek)
    ensures r == if 8 + 8 * first + PointSize(f.z, f.m) > |s| then OutOfBounds
                 else Success(Rounded(Vertex(s, 8 + 8 * first, f.z, f.m, dec), rnd))
  {
    hide Widened, Single;
    if 8 + 8 * first + PointSize(f.z, f.m) > |s| {
      return OutOfBounds;
    }
    var i := first;
    var x := Double(s, i, dec);
    i := i + 1;
    var y := Double(s, i, dec);
    i := i + 1;
    var e := Extent(Range(x, x), Range(y, y), None, None);
    if f.z {
      var z := Double(s, i, dec);
      i := i + 1;
      e := e.(z := Some(Range(z, z)));
    }
    if f.m {
      var m := Double(s, i, dec);
      i := i + 1;
      e := e.(m := Some(Range(m, m)));
    }
    return Success(Rounded(e, rnd));
  }

  /** FP_MIN and FP_MAX of doubles i and j. */
  method MinMax(s: seq<Byte>, i: nat, j: nat, dec: seq<Byte> -> real) returns (r: Range)
    requires 16 + 8 * i <= |s| && 16 + 8 * j <= |s|
    ensures r == Join(Single(s, 8 + 8 * i, dec), Single(s, 8 + 8 * j, dec))
  {
    var a := Double(s, i, dec);
    var b := Double(s, j, dec);
    r := Range(if a < b then a else b, if a > b then a else b);
  }

  /** The box of the two vertices that start at double `first`. */
  method PeekPair(s: seq<Byte>, first: nat, f: Flags, dec: seq<Byte> -> real, rnd: Rounding) returns (r: Peek)
    ensures r == var n := PointSize(f.z, f.m);
                 if 8 + 8 * first + 2 * n > |s| then OutOfBounds
                 else Success(Rounded(Merge(Vertex(s, 8 + 8 * first, f.z, f.m, dec),
                                            Vertex(s, 8 + 8 * first + n, f.z, f.m, dec)), rnd))
  {
    hide Widened, Single, Join;
    var n := PointSize(f.z, f.m);
    if 8 + 8 * first + 2 * n > |s| {
      return OutOfBounds;
    }
    var ndims := n / 8;
    var i := first;
    var x := MinMax(s, i, i + ndims, dec);
    i := i + 1;
    var y := MinMax(s, i, i + ndims, dec);
    var e := Extent(x, y, None, None);
    if f.z {
      i := i + 1;
      var z := MinMax(s, i, i + ndims, dec);
      e := e.(z := Some(z));
    }
    if f.m {
      i := i + 1;
      var m := MinMax(s, i, i + ndims, dec);
      e := e.(m := Some(m));
    }
    return Success(Rounded(e, rnd));
  }

  lemma VertexAt(s: seq<Byte>, at: nat, data: seq<Byte>, k: nat, z: bool, m: bool, dec: seq<Byte> -> real)
    requires At(s, at, data) && k + PointSize(z, m) <= |data|
    ensures at + k + PointSize(z, m) <= |s| && Vertex(s, at + k, z, m, dec) == Vertex(data, k, z, m, dec)
  {
    SameSingle(s, at, data, k, dec);
    SameSingle(s, at, data, k + 8, dec);
    if z {
      SameSingle(s, at, data, k + 16, dec);
    }
    if m {
      SameSingle(s, at, data, k + (if z then 24 else 16), dec);
    }
  }

  lemma SameSingle(s: seq<Byte>, at: nat, data: seq<Byte>, k: nat, dec: seq<Byte> -> real)
    requires At(s, at, data) && k + 8 <= |data|
    ensures at + k + 8 <= |s| && Single(s, at + k, dec) == Single(data, k, dec)
  {
    assert forall i {:trigger data[i]} :: 0 <= i < |data| ==> data[i] == s[at..at + |data|][i] == s[at + i];
    assert data[k..k + 8] == s[at + k..at + k + 8];
  }

  lemma DataAt(g: Geom, s: seq<Byte>, at: nat)
    requires Sound(g) && Uniform(g) && g.Simple? && At(s, at, Image(g))
    ensures At(s, at + 8, g.points.data) && |Image(g)| == 8 + |g.points.data|
  {
    AtConcat(s, at, Head(g.type_, g.points.npoints), g.points.data);
  }

  lemma OnlyMember(g: Geom, s: seq<Byte>, at: nat)
    requires Sound(g) && g.Collection? && |g.geoms| == 1 && At(s, at, Image(g))
    ensures At(s, at + 8, Image(g.geoms[0])) && |Image(g)| == 8 + |Image(g.geoms[0])|
  {
    MembersAt(g, s, at);
    assert g.geoms[..0] == [];
    assert ImageAll(g.geoms) == [] + Image(g.geoms[0]);
    assert [] + Image(g.geoms[0]) == Image(g.geoms[0]);
  }

  /** The extent of a point or a line of two vertices is that of its bytes. */
  lemma ShortExtent(g: Geom, s: seq<Byte>, at: nat, f: Flags, dec: seq<Byte> -> real)
    requires Sound(g) && Uniform(g) && Short(g) && SameDims(f, g.flags) && At(s, at, Image(g))
    ensures var n := PointSize(f.z, f.m);
            && at + 8 + (if g.type_ == POINTTYPE then n else 2 * n) <= |s|
            && ExtentOf(g, dec) == Some(if g.type_ == POINTTYPE then Vertex(s, at + 8, f.z, f.m, dec)
                                        else Merge(Vertex(s, at + 8, f.z, f.m, dec), Vertex(s, at + 8 + n, f.z, f.m, dec)))
  {
    hide Vertex, Merge, At, Image;
    DataAt(g, s, at);
    var n, data := PointSize(f.z, f.m), g.points.data;
    VertexAt(s, at + 8, data, 0, f.z, f.m, dec);
    if g.type_ == LINETYPE {
      assert |data| == 2 * n;
      VertexAt(s, at + 8, data, n, f.z, f.m, dec);
      PairExtent(data, f.z, f.m, dec);
    }
  }

  lemma PairExtent(data: seq<Byte>, z: bool, m: bool, dec: seq<Byte> -> real)
    requires |data| == 2 * PointSize(z, m)
    ensures ArrayExtent(data, z, m, dec) == Merge(Vertex(data, 0, z, m, dec), Vertex(data, PointSize(z, m), z, m, dec))
  {
    hide Merge;
    var n := PointSize(z, m);
    assert At(data, 0, data[..n]);
    VertexAt(data, 0, data[..n], 0, z, m, dec);
  }

  lemma LoneExtent(g: Geom, dec: seq<Byte> -> real)
    requires Sound(g) && g.Collection? && |g.geoms| == 1 && Straight(g)
    ensures ExtentOf(g, dec) == ExtentOf(g.geoms[0], dec)
  {
    assert g.geoms[..0] == [];
    assert ExtentOfAll(g.geoms[..0], dec) == None;
  }

  /** A regular geometry whose members are allowed: whenever the bytes alone give a box, it
      is the rounded box of the decoded geometry, and they do so exactly for the short
      geometries without a stored box that are not geodetic. */
  method PeekGbox(s: seq<Byte>, dec: seq<Byte> -> real, rnd: Rounding, ghost g: Geom, ghost box: Option<Box>, ghost srid: int)
    returns (r: Peek)
    requires Regular(g, box) && Allowed(g) && s == Whole(g, box, srid, rnd)
    ensures r.Success? <==> box.None? && !g.flags.geodetic && Peekable(g)
    ensures r.OutOfBounds? <==> box.None? && !g.flags.geodetic && Dangling(g)
    ensures r.Success? ==> Straight(g) && ExtentOf(g, dec).Some? && r.extent == Rounded(ExtentOf(g, dec).value, rnd)
  {
    hide Whole, FlagsOf, SridOf, GboxSize, SizeField, Image, ExtentOf, Rounded, Vertex, Merge, Regular, U32, At, ArraySize;
    WholeParts(g, box, srid, rnd);
    RegularParts(g, box);
    var t := GetType(s, g, box, srid, rnd);
    var f := FlagsOf(s[7]);
    if f.geodetic || f.box {
      return Failure;
    }
    CountAt(g, s, 8);
    if t == POINTTYPE {
      if U32(s, 12) == 0 {
        return Failure;
      }
      ShortExtent(g, s, 8, f, dec);
      r := PeekVertex(s, 1, f, dec, rnd);
    } else if t == LINETYPE {
      if U32(s, 12) != 2 {
        return Failure;
      }
      ShortExtent(g, s, 8, f, dec);
      r := PeekPair(s, 1, f, dec, rnd);
    } else if t == MULTIPOINTTYPE {
      if U32(s, 12) != 1 {
        return Failure;
      }
      OnlyMember(g, s, 8);
      PeekPoint(g, s, f, dec);
      r := PeekVertex(s, 2, f, dec, rnd);
    } else if t == MULTILINETYPE {
      if U32(s, 12) != 1 {
        return Failure;
      }
      OnlyMember(g, s, 8);
      CountAt(g.geoms[0], s, 16);
      if U32(s, 20) != 2 {
        return Failure;
      }
      ShortExtent(g.geoms[0], s, 16, f, dec);
      LoneExtent(g, dec);
      r := PeekPair(s, 2, f, dec, rnd);
    } else {
      return Failure;
    }
  }

  lemma RegularParts(g: Geom, box: Option<Box>)
    requires Regular(g, box)
    ensures Sound(g) && Uniform(g)
  {
  }

  lemma PeekPoint(g: Geom, s: seq<Byte>, f: Flags, dec: seq<Byte> -> real)
    requires Sound(g) && Uniform(g) && Allowed(g) && g.Collection? && g.type_ == MULTIPOINTTYPE && |g.geoms| == 1
    requires SameDims(f, g.flags) && At(s, 16, Image(g.geoms[0])) && |s| == 16 + |Image(g.geoms[0])|
    ensures Dangling(g) || Peekable(g)
    ensures Dangling(g) ==> |s| == 24
    ensures Peekable(g) ==> Straight(g) && 24 + PointSize(f.z, f.m) <= |s|
                            && ExtentOf(g, dec) == Some(Vertex(s, 24, f.z, f.m, dec))
  {
    hide Vertex, At, Image;
    var point := g.geoms[0];
    CountAt(point, s, 16);
    if !Dangling(g) {
      ShortExtent(point, s, 16, f, dec);
      LoneExtent(g, dec);
    }
  }
}
