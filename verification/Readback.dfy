/** Which geometries a reader gets back from what was written for them, over the whole of
    gserialized_from_rtgeom and rtgeom_from_gserialized in src/g_serialized.c. */
module Readback {
  import opened Bytes
  import opened Serialized
  import opened Serializer
  import opened Envelope
  import opened Shortcuts

  // ---- What a reader can return ----

  lemma {:induction false} RingsRead(buf: seq<Byte>, count: nat, ordinate: nat, f: Flags, k: nat)
    requires ordinate <= |buf| && ReadRings(buf, count, ordinate, f, k).Ok?
    ensures forall j :: 0 <= j < k ==> Fits(ReadRings(buf, count, ordinate, f, k).value.value[j], f)
  {
    hide U32, ArraySize;
    if k > 0 {
      RingsRead(buf, count, ordinate, f, k - 1);
    }
  }

  /** Whatever the bytes, a geometry that is read has the flags handed in, agrees in Z and
      M throughout, and has only members its collections allow. */
  lemma {:induction false} ReadIsUniform(buf: seq<Byte>, at: nat, f: Flags)
    requires ReadGeom(buf, at, f).Ok?
    ensures var g := ReadGeom(buf, at, f).value.value;
            g.flags == f && Uniform(g) && Allowed(g) && at + 4 <= |buf| && g.Type() == U32(buf, at)
    decreases |buf| - at, 0, 1
  {
    hide U32, ArraySize, ReadRings, ReadGeoms, AllowsSubtype;
    var t, n := U32(buf, at), U32(buf, at + 4);
    if t == POLYGONTYPE {
      var ordinate := at + 8 + 4 * n + Padding(n);
      RingsRead(buf, at + 8, ordinate, f, n);
    } else if IsCollectionType(t) {
      MembersAreUniform(buf, at + 8, t, f.(box := false), n);
    }
  }

  lemma {:induction false} MembersAreUniform(buf: seq<Byte>, at: nat, t: nat, f: Flags, k: nat)
    requires at <= |buf| && ReadGeoms(buf, at, t, f, k).Ok?
    ensures var gs := ReadGeoms(buf, at, t, f, k).value.value;
            forall j :: 0 <= j < k ==> gs[j].flags == f && Uniform(gs[j]) && Allowed(gs[j]) && AllowsSubtype(t, gs[j].Type())
    decreases |buf| - at, k + 1, 0
  {
    hide U32, ReadGeom, Uniform, Allowed, AllowsSubtype;
    if k > 0 {
      MembersAreUniform(buf, at, t, f, k - 1);
      ReadIsUniform(buf, ReadGeoms(buf, at, t, f, k - 1).value.next, f);
    }
  }

  lemma {:induction false} FlaggedMember(gs: seq<Geom>, f: Flags, k: nat)
    requires k < |gs|
    ensures FlaggedAll(gs, f)[k] == Flagged(gs[k], f)
    decreases |gs|
  {
    hide Flagged;
    if k < |gs| - 1 {
      FlaggedMember(gs[..|gs| - 1], f, k);
    }
  }

  /** Other flags of the same dimensions make no accepted geometry uniform. */
  lemma {:induction false} UniformWhenFlagged(g: Geom, f: Flags)
    requires Accepted(g) && SameDims(g.flags, f)
    ensures Uniform(Flagged(g, f)) <==> Uniform(g)
  {
    if g.Collection? {
      forall k | 0 <= k < |g.geoms|
        ensures Uniform(Flagged(g, f).geoms[k]) <==> Uniform(g.geoms[k])
        ensures Flagged(g, f).geoms[k].flags == f.(box := false)
      {
        FlaggedMember(g.geoms, f.(box := false), k);
        UniformWhenFlagged(g.geoms[k], f.(box := false));
      }
    }
  }

  lemma {:induction false} AllowedWhenFlagged(g: Geom, f: Flags)
    ensures Allowed(Flagged(g, f)) <==> Allowed(g)
  {
    hide AllowsSubtype;
    if g.Collection? {
      forall k | 0 <= k < |g.geoms|
        ensures Allowed(Flagged(g, f).geoms[k]) <==> Allowed(g.geoms[k])
        ensures Flagged(g, f).geoms[k].Type() == g.geoms[k].Type()
      {
        FlaggedMember(g.geoms, f.(box := false), k);
        AllowedWhenFlagged(g.geoms[k], f.(box := false));
      }
    }
  }

  // ---- Exactly what comes back ----

  /** Of the geometries the writers accept exactly those come back that are uniform and
      have only allowed members. */
  lemma ReadsBackExactly(g: Geom, buf: seq<Byte>, at: nat, f: Flags)
    requires Sound(g) && Accepted(g) && SameDims(g.flags, f) && At(buf, at, Image(g))
    ensures ReadGeom(buf, at, f) == Ok(Read(Flagged(g, f), at + |Image(g)|)) <==> Uniform(g) && Allowed(g)
  {
    hide Image, Sound, Accepted, Uniform, Allowed, Flagged, ReadGeom, At;
    UniformWhenFlagged(g, f);
    AllowedWhenFlagged(g, f);
    if Uniform(g) {
      ReadsBack(g, buf, at, f);
    } else if ReadGeom(buf, at, f).Ok? {
      ReadIsUniform(buf, at, f);
    }
  }

  /** What a reader should return: the geometry with the flags it inherits, the clamped
      SRID and the box in single precision. */
  function Original(g: Geom, box: Option<Box>, srid: int, rnd: Rounding): Decoded {
    var f := OuterFlags(g, box);
    Decoded(Flagged(g, f), Clamp(srid), WidenedPart(box, f, rnd))
  }

  lemma FlaggedFlags(g: Geom, f: Flags)
    ensures Flagged(g, f).flags == f
  {
  }

  lemma BoxAtShape(s: seq<Byte>, at: nat, f: Flags, rnd: Rounding)
    requires at + GboxSize(f) <= |s|
    ensures BoxFits(BoxAt(s, at, f, rnd), f)
  {
  }

  /** A reader that returns the original has met uniform geometry, allowed members, and a
      box that agrees. */
  lemma DecodedIsRegular(s: seq<Byte>, g: Geom, box: Option<Box>, srid: int, rnd: Rounding)
    requires Accepted(g) && Decode(s, rnd) == Ok(Original(g, box, srid, rnd))
    ensures Uniform(g) && Allowed(g) && BoxAgrees(g, box)
  {
    hide Uniform, Allowed, Accepted, Flagged, ReadGeom, FlagsOf, SridOf, BoxAt, GboxSize, Clamp;
    var outer, f := OuterFlags(g, box), FlagsOf(s[7]);
    ReadIsUniform(s, if f.box then 8 + GboxSize(f) else 8, f);
    FlaggedFlags(g, outer);
    UniformWhenFlagged(g, outer);
    AllowedWhenFlagged(g, outer);
    if f.box {
      BoxAtShape(s, 8, f, rnd);
    }
  }

  /** Over the whole serialization: the original comes back exactly when the geometry is
      uniform, its members are allowed and its box agrees. */
  lemma RoundTripExactly(g: Geom, box: Option<Box>, srid: int, rnd: Rounding)
    requires Sound(g) && Accepted(g)
    ensures Decode(Whole(g, box, srid, rnd), rnd) == Ok(Original(g, box, srid, rnd))
            <==> Uniform(g) && Allowed(g) && BoxAgrees(g, box)
  {
    hide Sound, Uniform, Allowed, Accepted, Whole, Decode, BoxAgrees, Predicted;
    if Uniform(g) && Allowed(g) && BoxAgrees(g, box) {
      RoundTrip(g, box, srid, rnd);
    } else if Decode(Whole(g, box, srid, rnd), rnd) == Ok(Original(g, box, srid, rnd)) {
      DecodedIsRegular(Whole(g, box, srid, rnd), g, box, srid, rnd);
    }
  }

  // ---- By the numbers of the format ----

  /** Four bytes, least significant first, and three, most significant first. */
  function Word(a: int, b: int, c: int, d: int): int { a + 256*b + 65536*c + 16777216*d }

  function WordIn(buf: seq<Byte>, at: nat): int
    requires at + 4 <= |buf|
  {
    Word(buf[at], buf[at + 1], buf[at + 2], buf[at + 3])
  }

  lemma WordIs(buf: seq<Byte>, at: nat)
    requires at + 4 <= |buf|
    ensures WordIn(buf, at) == U32(buf, at)
  {
  }

  function Triple(a: int, b: int, c: int): int { 65536*a + 256*b + c }

  /** The type number of a geometry: 1 point, 2 line, 3 polygon, 4 multipoint, 5 multiline,
      6 multipolygon, 7 collection, 8 circular string, 9 compound curve, 10 curve polygon,
      11 multicurve, 12 multisurface, 13 polyhedral surface, 14 triangle, 15 TIN. */
  function TypeNumber(g: Geom): nat { if g.Polygon? then 3 else g.type_ }

  /** The types of the members a collection can have. */
  function MemberTypes(t: nat): set<nat> {
    if t == 4 then {1}
    else if t == 5 then {2}
    else if t == 6 then {3}
    else if t == 7 then {1, 2, 3, 4, 5, 6, 7, 8, 9, 10, 11, 12, 13, 14, 15}
    else if t == 9 then {2, 8}
    else if t == 10 || t == 11 then {2, 8, 9}
    else if t == 12 then {3, 10}
    else if t == 13 then {3}
    else if t == 15 then {14}
    else {}
  }

  /** Every collection has members of its own types only. */
  predicate WellNested(g: Geom) {
    g.Collection? ==> forall k :: 0 <= k < |g.geoms| ==> TypeNumber(g.geoms[k]) in MemberTypes(g.type_) && WellNested(g.geoms[k])
  }

  /** Which types have vertices, and which have members. */
  lemma TypesAre(t: nat)
    ensures IsSimpleType(t) <==> t in {1, 2, 8, 14}
    ensures IsCollectionType(t) <==> t in {4, 5, 6, 7, 9, 10, 11, 12, 13, 15}
  {
  }

  lemma SubtypesAre(t: nat, g: Geom)
    requires Sound(g) && Uniform(g) && IsCollectionType(t)
    ensures g.Type() == TypeNumber(g) && (AllowsSubtype(t, g.Type()) <==> TypeNumber(g) in MemberTypes(t))
  {
    TypesAre(g.Type());
  }

  lemma {:induction false} WellNestedIsAllowed(g: Geom)
    requires Sound(g) && Uniform(g)
    ensures WellNested(g) <==> Allowed(g)
  {
    hide AllowsSubtype, MemberTypes;
    if g.Collection? {
      forall k | 0 <= k < |g.geoms|
        ensures WellNested(g.geoms[k]) <==> Allowed(g.geoms[k])
        ensures AllowsSubtype(g.type_, g.geoms[k].Type()) <==> TypeNumber(g.geoms[k]) in MemberTypes(g.type_)
      {
        WellNestedIsAllowed(g.geoms[k]);
        SubtypesAre(g.type_, g.geoms[k]);
      }
    }
  }

  /** A written uniform geometry starts with its type number and its count, and is read back
      if and only if its collections have members of their own types only; otherwise the
      subtype is refused. */
  lemma ReadsBackByType(g: Geom, buf: seq<Byte>, at: nat, f: Flags)
    requires Sound(g) && Uniform(g) && SameDims(g.flags, f) && At(buf, at, Image(g))
    ensures ReadGeom(buf, at, f)
            == if WellNested(g) then Ok(Read(Flagged(g, f), at + |Image(g)|)) else Err(InvalidSubtype)
    ensures at + 8 <= |buf|
    ensures WordIn(buf, at) == TypeNumber(g)
    ensures WordIn(buf, at + 4) == if g.Simple? then g.points.npoints else if g.Polygon? then |g.rings| else |g.geoms|
  {
    hide Image, Sound, Uniform, Allowed, WellNested, ReadGeom, Flagged, At, U32, WordIn, TypeNumber;
    WellNestedIsAllowed(g);
    ReadsBack(g, buf, at, f);
    CountAt(g, buf, at);
    TypeIs(g);
    WordIs(buf, at);
    WordIs(buf, at + 4);
  }

  lemma TypeIs(g: Geom)
    requires Uniform(g)
    ensures g.Type() == TypeNumber(g)
    ensures Count(g) == if g.Simple? then g.points.npoints else if g.Polygon? then |g.rings| else |g.geoms|
  {
  }

  /** The first eight bytes: the size times four, the SRID and the flags. */
  ghost predicate HeadIs(s: seq<Byte>, srid: int, f: Flags) {
    && |s| >= 8
    && (|s| < 0x4000_0000 ==> WordIn(s, 0) == 4*|s|)
    && (0 <= srid <= 999999 ==> Triple(s[4], s[5], s[6]) == srid)
    && s[7] == (if f.z then 1 else 0) + (if f.m then 2 else 0) + (if f.box then 4 else 0) + (if f.geodetic then 8 else 0) + 16*f.rest
  }

  /** The same for a complete serialization. */
  lemma RoundTripByType(g: Geom, box: Option<Box>, srid: int, rnd: Rounding)
    requires Regular(g, box)
    ensures Decode(Whole(g, box, srid, rnd), rnd) == if WellNested(g) then Ok(Original(g, box, srid, rnd)) else Err(InvalidSubtype)
    ensures HeadIs(Whole(g, box, srid, rnd), srid, g.flags.(box := box.Some?))
  {
    hide Whole, Sound, Uniform, Allowed, WellNested, Flagged, Decode, HeadIs, Predicted, SizeField;
    WellNestedIsAllowed(g);
    RoundTrip(g, box, srid, rnd);
    HeadOfWhole(g, box, srid, rnd);
  }

  lemma HeadOfWhole(g: Geom, box: Option<Box>, srid: int, rnd: Rounding)
    requires Sound(g)
    ensures HeadIs(Whole(g, box, srid, rnd), srid, OuterFlags(g, box))
  {
    hide Image, BoxPart, Header, HeadIs;
    var body, f := BoxPart(box, rnd) + Image(g), OuterFlags(g, box);
    HeadBytes(8 + |body|, srid, f, body);
  }

  lemma HeadBytes(n: nat, srid: int, f: Flags, body: seq<Byte>)
    requires n == 8 + |body|
    ensures HeadIs(Header(n, srid, f) + body, srid, f)
  {
    hide LE32, SridBytes, Triple;
    var h := Header(n, srid, f);
    var size, id := LE32(4*n), SridBytes(srid);
    assert forall k :: 0 <= k < 4 ==> h[k] == size[k];
    assert forall k :: 0 <= k < 3 ==> h[4 + k] == id[k];
    assert h[7] == FlagByte(f);
    if n < 0x4000_0000 {
      SizeBytes(size, 4*n);
    }
    if 0 <= srid <= 999999 {
      SridSum(srid);
    }
  }

  lemma SizeBytes(s: seq<Byte>, n: nat)
    requires n < WORD && s == LE32(n)
    ensures WordIn(s, 0) == n
  {
    WordSum(n);
  }

  lemma SridSum(srid: int)
    requires 0 <= srid <= 999999
    ensures Triple(SridBytes(srid)[0], SridBytes(srid)[1], SridBytes(srid)[2]) == srid
  {
    SplitBytes(srid);
  }

  // ---- Where everything stands ----

  /** The bytes of a vertex: eight for each ordinate. */
  function VertexBytes(z: bool, m: bool): nat { if z && m then 32 else if z || m then 24 else 16 }

  lemma VertexSize(n: nat, z: bool, m: bool)
    ensures PointSize(z, m) == VertexBytes(z, m) && ArraySize(n, z, m) == n * VertexBytes(z, m)
  {
  }

  /** Behind type and count stand the ordinates, of a point those of its first vertex. */
  lemma SimpleLiesAt(g: Geom, buf: seq<Byte>, at: nat)
    requires Sound(g) && g.Simple? && At(buf, at, Image(g))
    ensures var pa := g.points;
            && |pa.data| == pa.npoints * VertexBytes(pa.hasz, pa.hasm)
            && At(buf, at + 8, if g.type_ == 1 && pa.npoints > 1 then pa.data[..VertexBytes(pa.hasz, pa.hasm)] else pa.data)
  {
    hide At, Head, ArraySize;
    var pa := g.points;
    VertexSize(pa.npoints, pa.hasz, pa.hasm);
    AtConcat(buf, at, Head(g.type_, pa.npoints), Ordinates(g.type_, pa));
  }

  /** The bytes of the ordinates of some rings. */
  function DataBytes(rings: seq<PArray>): nat {
    if |rings| == 0 then 0 else DataBytes(rings[..|rings| - 1]) + |rings[|rings| - 1].data|
  }

  lemma {:induction false} RingLiesAt(rings: seq<PArray>, buf: seq<Byte>, count: nat, ordinate: nat, k: nat)
    requires k < |rings| && rings[k].npoints < 0x1_0000_0000
    requires At(buf, count, Counts(rings)) && At(buf, ordinate, RingData(rings))
    ensures count + 4*k + 4 <= |buf| && WordIn(buf, count + 4*k) == rings[k].npoints
    ensures |RingData(rings[..k])| == DataBytes(rings[..k]) && At(buf, ordinate + DataBytes(rings[..k]), rings[k].data)
    decreases |rings|
  {
    hide At, LE32, U32, WordIn;
    var n := |rings| - 1;
    var front, last := rings[..n], rings[n];
    AtConcat(buf, count, Counts(front), LE32(last.npoints));
    AtConcat(buf, ordinate, RingData(front), last.data);
    DataBytesOf(front);
    if k == n {
      WordAt(buf, count + 4*n, last.npoints);
      WordIs(buf, count + 4*n);
    } else {
      RingLiesAt(front, buf, count, ordinate, k);
      assert front[..k] == rings[..k];
    }
  }

  lemma {:induction false} DataBytesOf(rings: seq<PArray>)
    ensures |RingData(rings)| == DataBytes(rings)
  {
    if |rings| > 0 {
      DataBytesOf(rings[..|rings| - 1]);
    }
  }

  /** Of a polygon the counts of the rings stand first, then four zero bytes if their number
      is odd, then their ordinates, ring after ring. */
  lemma PolygonLiesAt(g: Geom, buf: seq<Byte>, at: nat, k: nat)
    requires Sound(g) && g.Polygon? && At(buf, at, Image(g)) && k < |g.rings|
    ensures var n := |g.rings|;
            var data := at + 8 + 4*n + if n % 2 == 1 then 4 else 0;
            && at + 8 + 4*k + 4 <= |buf| && WordIn(buf, at + 8 + 4*k) == g.rings[k].npoints
            && (n % 2 == 1 ==> At(buf, at + 8 + 4*n, [0, 0, 0, 0]))
            && At(buf, data + DataBytes(g.rings[..k]), g.rings[k].data)
  {
    hide At, Head, Counts, RingData, WordIn;
    var n := |g.rings|;
    var counts, pad := Counts(g.rings), Zeros(Padding(n));
    AtConcat(buf, at, Head(3, n), counts + pad + RingData(g.rings));
    AtConcat(buf, at + 8, counts + pad, RingData(g.rings));
    AtConcat(buf, at + 8, counts, pad);
    assert SoundArray(g.rings[k]);
    RingLiesAt(g.rings, buf, at + 8, at + 8 + |counts + pad|, k);
    if n % 2 == 1 {
      assert pad == [0, 0, 0, 0];
    }
  }

  /** The bytes of some members. */
  function MemberBytes(gs: seq<Geom>): nat
    requires forall k :: 0 <= k < |gs| ==> Sound(gs[k])
  {
    if |gs| == 0 then 0 else MemberBytes(gs[..|gs| - 1]) + |Image(gs[|gs| - 1])|
  }

  lemma {:induction false} MemberBytesOf(gs: seq<Geom>)
    requires forall k :: 0 <= k < |gs| ==> Sound(gs[k])
    ensures |ImageAll(gs)| == MemberBytes(gs)
  {
    hide Image, Sound;
    if |gs| > 0 {
      MemberBytesOf(gs[..|gs| - 1]);
    }
  }

  /** Of a collection the members stand one behind the other, in order. */
  lemma MemberLiesAt(g: Geom, buf: seq<Byte>, at: nat, k: nat)
    requires Sound(g) && g.Collection? && At(buf, at, Image(g)) && k < |g.geoms|
    ensures At(buf, at + 8 + MemberBytes(g.geoms[..k]), Image(g.geoms[k]))
  {
    hide At, Image;
    MembersAt(g, buf, at);
    ImagePrefix(g.geoms, k, buf, at + 8);
    MemberBytesOf(g.geoms[..k]);
  }

  /** A range stands as its lower bound rounded down and its upper bound rounded up. */
  predicate RangeStands(s: seq<Byte>, at: nat, r: Range, rnd: Rounding) {
    At(s, at, rnd.down(r.lo)) && At(s, at + 4, rnd.up(r.hi))
  }

  /** The box: the ranges of X and Y, then that of Z, then that of M. */
  lemma BoxLiesAt(s: seq<Byte>, at: nat, b: Box, rnd: Rounding)
    requires At(s, at, BoxBytes(b, rnd))
    ensures RangeStands(s, at, b.x, rnd) && RangeStands(s, at + 8, b.y, rnd)
    ensures b.z.Some? ==> RangeStands(s, at + 16, b.z.value, rnd)
    ensures b.m.Some? ==> RangeStands(s, at + if b.z.Some? then 24 else 16, b.m.value, rnd)
  {
    hide At, RangeBytes, RangeStands;
    var x, y, z, m := RangeBytes(b.x, rnd), RangeBytes(b.y, rnd), OptionBytes(b.z, rnd), OptionBytes(b.m, rnd);
    AtConcat(s, at, x + y + z, m);
    AtConcat(s, at, x + y, z);
    AtConcat(s, at, x, y);
    RangeLiesAt(s, at, b.x, rnd);
    RangeLiesAt(s, at + 8, b.y, rnd);
    if b.z.Some? {
      RangeLiesAt(s, at + 16, b.z.value, rnd);
    }
    if b.m.Some? {
      RangeLiesAt(s, at + 16 + |z|, b.m.value, rnd);
    }
  }

  lemma RangeLiesAt(s: seq<Byte>, at: nat, r: Range, rnd: Rounding)
    requires At(s, at, RangeBytes(r, rnd))
    ensures RangeStands(s, at, r, rnd)
  {
    AtConcat(s, at, rnd.down(r.lo), rnd.up(r.hi));
  }

  /** In a complete serialization the box stands at byte 8 and the geometry behind it. */
  lemma WholeLiesAt(g: Geom, box: Option<Box>, srid: int, rnd: Rounding)
    requires Sound(g)
    ensures var s := Whole(g, box, srid, rnd);
            match box
            case None => At(s, 8, Image(g))
            case Some(b) => At(s, 8, BoxBytes(b, rnd)) && At(s, 8 + |BoxBytes(b, rnd)|, Image(g))
  {
    hide Image, Header, BoxBytes;
    var part := BoxPart(box, rnd);
    var body := part + Image(g);
    var s, head := Whole(g, box, srid, rnd), Header(8 + |body|, srid, OuterFlags(g, box));
    assert At(s, 0, head + body);
    AtConcat(s, 0, head, body);
    AtConcat(s, 8, part, Image(g));
  }

  // ---- Adding a box ----

  /** rtgeom_count_vertices. */
  function Vertices(g: Geom): nat {
    if IsEmpty(g) then 0
    else
      match g
      case Simple(t, _, points) => if t == POINTTYPE then 1 else points.npoints
      case Polygon(_, rings) => RingVertices(rings)
      case Collection(_, _, geoms) => AllVertices(geoms)
      case Unknown(_, _) => 0
  }

  function RingVertices(rings: seq<PArray>): nat {
    if |rings| == 0 then 0 else RingVertices(rings[..|rings| - 1]) + rings[|rings| - 1].npoints
  }

  function AllVertices(gs: seq<Geom>): nat {
    if |gs| == 0 then 0 else AllVertices(gs[..|gs| - 1]) + Vertices(gs[|gs| - 1])
  }

  /** rtgeom_needs_bbox. */
  predicate NeedsBox(g: Geom) {
    var t := g.Type();
    if t == POINTTYPE then false
    else if t == LINETYPE then Vertices(g) > 2
    else if t == MULTIPOINTTYPE && g.Collection? then |g.geoms| != 1
    else if t == MULTILINETYPE && g.Collection? then |g.geoms| != 1 || Vertices(g) > 2
    else true
  }

  /** The same by type numbers and counts: no box for a point, for a line of at most two
      vertices, for a multipoint of one member, and for a multiline of one member that has
      at most two vertices. */
  predicate NeedsBoxByCounts(g: Geom) {
    match TypeNumber(g)
    case 1 => false
    case 2 => g.Simple? && g.points.npoints > 2
    case 4 => !(g.Collection? && |g.geoms| == 1)
    case 5 => !(g.Collection? && |g.geoms| == 1 && g.geoms[0].Simple? && g.geoms[0].points.npoints <= 2)
    case _ => true
  }

  lemma BoxByCounts(g: Geom)
    requires Sound(g) && Uniform(g) && WellNested(g)
    ensures NeedsBox(g) <==> NeedsBoxByCounts(g)
  {
    hide SoundArray;
    if g.Collection? && g.type_ == 5 && |g.geoms| == 1 {
      LoneMemberVertices(g);
    }
  }

  lemma LoneMemberVertices(g: Geom)
    requires Sound(g) && Uniform(g) && WellNested(g) && g.Collection? && g.type_ == 5 && |g.geoms| == 1
    ensures g.geoms[0].Simple? && Vertices(g) == g.geoms[0].points.npoints
  {
    hide SoundArray;
    var m := g.geoms[0];
    assert TypeNumber(m) in MemberTypes(5);
    assert m.Simple?;
    assert g.geoms[..0] == [] && AllVertices([]) == 0;
    assert AllVertices(g.geoms) == Vertices(m);
  }

  /** The box that is written: the one there is, or one computed where it is needed. */
  function WithBox(g: Geom, box: Option<Box>, boxOf: Geom -> Box): Option<Box> {
    if box.None? && NeedsBox(g) && !IsEmpty(g) then Some(boxOf(g)) else box
  }

  /** The whole of gserialized_from_rtgeom, and what becomes of its result: it is there
      exactly when no writer objects and the counts leave no excess, and the original comes
      back from it exactly when the geometry is uniform, its members are allowed and the
      box agrees. */
  method FromRtgeom(g: Geom, box: Option<Box>, boxOf: Geom -> Box, srid: int, rnd: Rounding) returns (r: Result<array<Byte>>)
    requires Sound(g) && (box.Some? ==> BoxShape(box.value)) && BoxShape(boxOf(g))
    ensures var written := WithBox(g, box, boxOf);
            && (r.Ok? <==> Accepted(g) && Excess(g) + BoxExcess(g, written) == 0)
            && (r.Ok? ==> fresh(r.value) && r.value[..] == Whole(g, written, srid, rnd))
            && (r.Ok? ==> HeadIs(r.value[..], srid, g.flags.(box := g.flags.box || written.Some?)))
            && (Uniform(g) && WellNested(g)
                ==> (written.Some? <==> box.Some? || (NeedsBoxByCounts(g) && !IsEmpty(g))))
            && (r.Ok? ==> (Decode(r.value[..], rnd) == Ok(Original(g, written, srid, rnd))
                           <==> Uniform(g) && Allowed(g) && BoxAgrees(g, written)))
  {
    hide Sound, Uniform, Allowed, Accepted, Whole, Decode, BoxAgrees, Predicted, Original, Excess, BoxExcess, NeedsBox, IsEmpty, Image, BoxPart, WellNested,
         NeedsBoxByCounts, HeadIs;
    if Uniform(g) && WellNested(g) {
      BoxByCounts(g);
    }
    var written := box;
    if box.None? && NeedsBox(g) && !IsEmpty(g) {
      written := Some(boxOf(g));
    }
    r := FromGeom(g, written, srid, rnd);
    if r.Ok? {
      RoundTripExactly(g, written, srid, rnd);
      HeadOfWhole(g, written, srid, rnd);
    }
  }

  /** A box flag without a box matters exactly where no box is added: to a geometry that
      needs none, and to an empty one. */
  lemma StaleFlagMatters(g: Geom, boxOf: Geom -> Box, srid: int, rnd: Rounding)
    requires Sound(g) && Uniform(g) && Allowed(g) && BoxFits(boxOf(g), g.flags)
    ensures var written := WithBox(g, None, boxOf);
            Decode(Whole(g, written, srid, rnd), rnd) == Ok(Original(g, written, srid, rnd))
            <==> !g.flags.box || (NeedsBox(g) && !IsEmpty(g))
  {
    hide Sound, Uniform, Allowed, Accepted, Whole, Decode, Original, NeedsBox, IsEmpty, BoxFits;
    UniformIsAccepted(g);
    RoundTripExactly(g, WithBox(g, None, boxOf), srid, rnd);
  }

  // ---- Written, but not read back ----

  /** A point with a second vertex makes up for the measures a line's flags hide: what is
      written has the size predicted, and does not come back. */
  method HiddenMeasures(xy: seq<Byte>, xym: seq<Byte>, boxOf: Geom -> Box, rnd: Rounding) returns (r: Result<array<Byte>>)
    requires |xy| == 32 && |xym| == 48
    requires forall g :: BoxFits(boxOf(g), g.flags) && BoxShape(boxOf(g))
    ensures var f := Flags(false, false, false, false, 0);
            var point := Simple(POINTTYPE, f, PArray(false, false, 2, xy));
            var line := Simple(LINETYPE, f, PArray(false, true, 2, xym));
            var g := Collection(COLLECTIONTYPE, f, [point, line]);
            var written := WithBox(g, None, boxOf);
            r.Ok? && Decode(r.value[..], rnd) != Ok(Original(g, written, 0, rnd))
  {
    var f := Flags(false, false, false, false, 0);
    var point := Simple(POINTTYPE, f, PArray(false, false, 2, xy));
    var line := Simple(LINETYPE, f, PArray(false, true, 2, xym));
    var g := Collection(COLLECTIONTYPE, f, [point, line]);
    MixedIs(g, point, line);
    BoxBytesSize(boxOf(g), g.flags, rnd);
    BoxBytesSize(boxOf(g), boxOf(g).flags, rnd);
    r := FromRtgeom(g, None, boxOf, 0, rnd);
  }

  lemma MixedIs(g: Geom, point: Geom, line: Geom)
    requires g.Collection? && g.geoms == [point, line] && g.type_ == COLLECTIONTYPE && g.flags == Flags(false, false, false, false, 0)
    requires point.Simple? && point.type_ == POINTTYPE && point.flags == g.flags
    requires point.points.npoints == 2 && Fits(point.points, g.flags) && |point.points.data| == 32
    requires line.Simple? && line.type_ == LINETYPE && line.flags == g.flags
    requires line.points.npoints == 2 && line.points.hasm && !line.points.hasz && |line.points.data| == 48
    ensures Sound(g) && Accepted(g) && !Uniform(g) && Excess(g) == 0
  {
    assert !Uniform(g.geoms[0]);
    assert [point, line][..1] == [point] && [point][..0] == [];
    assert Excess(point) == 16 && Excess(line) == -16;
    assert ExcessOfAll([point]) == ExcessOfAll([]) + Excess(point);
    assert ExcessOfAll([point, line]) == ExcessOfAll([point]) + Excess(line);
  }

  /** A point alone is written exactly when it has at most one vertex, and a line alone
      exactly when it has none or agrees in M. */
  lemma AloneIsRefused(g: Geom)
    requires Sound(g) && Accepted(g) && g.Simple?
    ensures g.type_ == POINTTYPE ==> (Excess(g) == 0 <==> g.points.npoints <= 1)
    ensures g.type_ == LINETYPE ==> (Excess(g) == 0 <==> g.points.npoints == 0 || g.points.hasm == g.flags.m)
    ensures g.type_ == POINTTYPE || g.points.npoints > 0 ==> (Excess(g) == 0 <==> Uniform(g))
  {
    hide ArraySize, PointSize;
    if g.points.npoints > 0 {
      SecondVertexShows(g.points.npoints, g.flags);
    }
  }
}
