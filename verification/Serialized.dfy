/** The serialized form of src/g_serialized.c: the layout of a geometry in bytes, the
    size predicted for it, the writer and the reader. */
module Serialized {
  import opened Bytes

  // ---- Types and flags ----

  const POINTTYPE := 1
  const LINETYPE := 2
  const POLYGONTYPE := 3
  const MULTIPOINTTYPE := 4
  const MULTILINETYPE := 5
  const MULTIPOLYGONTYPE := 6
  const COLLECTIONTYPE := 7
  const CIRCSTRINGTYPE := 8
  const COMPOUNDTYPE := 9
  const CURVEPOLYTYPE := 10
  const MULTICURVETYPE := 11
  const MULTISURFACETYPE := 12
  const POLYHEDRALSURFACETYPE := 13
  const TRIANGLETYPE := 14
  const TINTYPE := 15

  predicate IsSimpleType(t: nat) {
    t in {POINTTYPE, LINETYPE, CIRCSTRINGTYPE, TRIANGLETYPE}
  }

  predicate IsCollectionType(t: nat) {
    4 <= t <= 7 || 9 <= t <= 13 || t == TINTYPE
  }

  /** rtcollection_allows_subtype. */
  predicate AllowsSubtype(t: nat, sub: nat) {
    || t == COLLECTIONTYPE
    || (t == MULTIPOINTTYPE && sub == POINTTYPE)
    || (t == MULTILINETYPE && sub == LINETYPE)
    || (t == MULTIPOLYGONTYPE && sub == POLYGONTYPE)
    || (t == COMPOUNDTYPE && (sub == LINETYPE || sub == CIRCSTRINGTYPE))
    || (t == CURVEPOLYTYPE && (sub == CIRCSTRINGTYPE || sub == LINETYPE || sub == COMPOUNDTYPE))
    || (t == MULTICURVETYPE && (sub == CIRCSTRINGTYPE || sub == LINETYPE || sub == COMPOUNDTYPE))
    || (t == MULTISURFACETYPE && (sub == POLYGONTYPE || sub == CURVEPOLYTYPE))
    || (t == POLYHEDRALSURFACETYPE && sub == POLYGONTYPE)
    || (t == TINTYPE && sub == TRIANGLETYPE)
  }

  /** The flag byte; `rest` is its upper half, which is carried along. */
  type Nibble = n: int | 0 <= n < 16

  datatype Flags = Flags(z: bool, m: bool, box: bool, geodetic: bool, rest: Nibble)

  predicate SameDims(f: Flags, g: Flags) { f.z == g.z && f.m == g.m }

  function PointSize(z: bool, m: bool): nat {
    8 * (2 + (if z then 1 else 0) + (if m then 1 else 0))
  }

  /** Bytes of the ordinates of so many vertices. */
  function ArraySize(npoints: nat, z: bool, m: bool): (n: nat)
    ensures n % 8 == 0
    ensures npoints == 0 ==> n == 0
    ensures npoints > 0 ==> n >= PointSize(z, m)
    ensures npoints == 1 ==> n == PointSize(z, m)
  {
    npoints * PointSize(z, m)
  }

  // ---- Geometries ----

  /** Vertices as the bytes of their ordinates. */
  datatype PArray = PArray(hasz: bool, hasm: bool, npoints: nat, data: seq<Byte>)

  datatype Geom =
    | Simple(type_: nat, flags: Flags, points: PArray)
    | Polygon(flags: Flags, rings: seq<PArray>)
    | Collection(type_: nat, flags: Flags, geoms: seq<Geom>)
    | Unknown(type_: nat, flags: Flags)
  {
    function Type(): nat { if Polygon? then POLYGONTYPE else type_ }
  }

  predicate SoundArray(pa: PArray) {
    pa.npoints < WORD && |pa.data| == ArraySize(pa.npoints, pa.hasz, pa.hasm)
  }

  /** The layout every geometry in memory has. */
  predicate Sound(g: Geom) {
    match g
    case Simple(t, _, points) => IsSimpleType(t) && SoundArray(points)
    case Polygon(_, rings) => |rings| < WORD && forall k :: 0 <= k < |rings| ==> SoundArray(rings[k])
    case Collection(t, _, geoms) => IsCollectionType(t) && |geoms| < WORD && forall k :: 0 <= k < |geoms| ==> Sound(geoms[k])
    case Unknown(t, _) => !IsSimpleType(t) && !IsCollectionType(t) && t != POLYGONTYPE
  }

  predicate Fits(pa: PArray, f: Flags) { pa.hasz == f.z && pa.hasm == f.m }

  /** Z and M agree throughout, and a point has at most one vertex. */
  predicate Uniform(g: Geom) {
    match g
    case Simple(t, f, points) => Fits(points, f) && (t == POINTTYPE ==> points.npoints <= 1)
    case Polygon(f, rings) => forall k :: 0 <= k < |rings| ==> Fits(rings[k], f)
    case Collection(_, f, geoms) =>
      forall k :: 0 <= k < |geoms| ==> SameDims(geoms[k].flags, f) && Uniform(geoms[k])
    case Unknown(_, _) => false
  }

  predicate Allowed(g: Geom) {
    g.Collection? ==> forall k :: 0 <= k < |g.geoms| ==> AllowsSubtype(g.type_, g.geoms[k].Type()) && Allowed(g.geoms[k])
  }

  // ---- Predicted size ----

  function Padding(n: nat): nat { if n % 2 == 1 then 4 else 0 }

  function SizeOf(g: Geom): nat {
    match g
    case Simple(_, f, points) => 8 + ArraySize(points.npoints, f.z, f.m)
    case Polygon(f, rings) => 8 + Padding(|rings|) + SizeOfRings(rings, f)
    case Collection(_, _, geoms) => 8 + SizeOfAll(geoms)
    case Unknown(_, _) => 0
  }

  function SizeOfRings(rings: seq<PArray>, f: Flags): nat {
    if |rings| == 0 then 0
    else SizeOfRings(rings[..|rings| - 1], f) + 4 + ArraySize(rings[|rings| - 1].npoints, f.z, f.m)
  }

  function SizeOfAll(gs: seq<Geom>): nat {
    if |gs| == 0 then 0 else SizeOfAll(gs[..|gs| - 1]) + SizeOf(gs[|gs| - 1])
  }

  // ---- Layout ----

  /** Of a point only the first vertex is stored. */
  function Ordinates(t: nat, pa: PArray): (s: seq<Byte>)
    requires SoundArray(pa)
    ensures t != POINTTYPE || pa.npoints <= 1 ==> s == pa.data
  {
    if t == POINTTYPE && pa.npoints > 0 then
      pa.data[..PointSize(pa.hasz, pa.hasm)]
    else pa.data
  }

  function Counts(rings: seq<PArray>): (s: seq<Byte>)
    ensures |s| == 4 * |rings|
  {
    if |rings| == 0 then [] else Counts(rings[..|rings| - 1]) + LE32(rings[|rings| - 1].npoints)
  }

  function RingData(rings: seq<PArray>): seq<Byte> {
    if |rings| == 0 then [] else RingData(rings[..|rings| - 1]) + rings[|rings| - 1].data
  }

  function Zeros(n: nat): (s: seq<Byte>)
    ensures |s| == n
  {
    seq(n, _ => 0)
  }

  function Head(t: nat, n: nat): (s: seq<Byte>)
    ensures |s| == 8
  {
    LE32(t) + LE32(n)
  }

  function Image(g: Geom): seq<Byte>
    requires Sound(g)
  {
    match g
    case Simple(t, _, points) => Head(t, points.npoints) + Ordinates(t, points)
    case Polygon(_, rings) =>
      Head(POLYGONTYPE, |rings|) + (Counts(rings) + Zeros(Padding(|rings|)) + RingData(rings))
    case Collection(t, _, geoms) => Head(t, |geoms|) + ImageAll(geoms)
    case Unknown(_, _) => []
  }

  function ImageAll(gs: seq<Geom>): seq<Byte>
    requires forall k :: 0 <= k < |gs| ==> Sound(gs[k])
  {
    if |gs| == 0 then [] else ImageAll(gs[..|gs| - 1]) + Image(gs[|gs| - 1])
  }

  // ---- The prediction is right ----

  lemma {:induction false} RingSizes(rings: seq<PArray>, f: Flags)
    requires forall k :: 0 <= k < |rings| ==> SoundArray(rings[k]) && Fits(rings[k], f)
    ensures 4 * |rings| + |RingData(rings)| == SizeOfRings(rings, f)
    ensures |RingData(rings)| % 8 == 0
  {
    hide ArraySize;
    if |rings| > 0 {
      RingSizes(rings[..|rings| - 1], f);
    }
  }

  /** For a uniform geometry the predicted size is the size of what is written, and a
      multiple of eight. */
  lemma {:induction false} SizeIsExact(g: Geom)
    requires Sound(g) && Uniform(g)
    ensures |Image(g)| == SizeOf(g)
    ensures |Image(g)| % 8 == 0 && |Image(g)| >= 8
    decreases g, 1
  {
    hide Head, Counts, Zeros, ArraySize, Ordinates, IsSimpleType, IsCollectionType;
    hide ImageAll, SizeOfAll, RingData, SizeOfRings;
    match g
    case Simple(t, f, points) =>
    case Polygon(f, rings) =>
      RingSizes(rings, f);
      PaddedSize(|rings|, |RingData(rings)|);
    case Collection(t, f, geoms) => SizesAreExact(geoms);
  }

  lemma PaddedSize(n: nat, data: nat)
    requires data % 8 == 0
    ensures (8 + 4 * n + Padding(n) + data) % 8 == 0
  {
  }

  lemma {:induction false} SizesAreExact(gs: seq<Geom>)
    requires forall k :: 0 <= k < |gs| ==> Sound(gs[k]) && Uniform(gs[k])
    ensures |ImageAll(gs)| == SizeOfAll(gs)
    ensures |ImageAll(gs)| % 8 == 0
    decreases gs, 0
  {
    hide Image, SizeOf, Sound, Uniform;
    if |gs| > 0 {
      SizesAreExact(gs[..|gs| - 1]);
      SizeIsExact(gs[|gs| - 1]);
    }
  }

  // ---- Where the ordinates are ----

  /** A run of ordinates and the offset it is written at. */
  datatype Block = Block(at: nat, data: seq<Byte>)

  function Blocks(g: Geom, at: nat): seq<Block>
    requires Sound(g)
    decreases g, 1
  {
    match g
    case Simple(t, _, points) => [Block(at + 8, Ordinates(t, points))]
    case Polygon(_, rings) => RingBlocks(rings, at + 8 + 4 * |rings| + Padding(|rings|))
    case Collection(_, _, geoms) => AllBlocks(geoms, at + 8)
    case Unknown(_, _) => []
  }

  function RingBlocks(rings: seq<PArray>, at: nat): seq<Block> {
    if |rings| == 0 then []
    else
      var front := rings[..|rings| - 1];
      RingBlocks(front, at) + [Block(at + |RingData(front)|, rings[|rings| - 1].data)]
  }

  function AllBlocks(gs: seq<Geom>, at: nat): seq<Block>
    requires forall k :: 0 <= k < |gs| ==> Sound(gs[k])
    decreases gs, 0
  {
    if |gs| == 0 then []
    else
      var front := gs[..|gs| - 1];
      AllBlocks(front, at) + Blocks(gs[|gs| - 1], at + |ImageAll(front)|)
  }

  predicate WellPlaced(blocks: seq<Block>, buf: seq<Byte>) {
    forall k :: 0 <= k < |blocks| ==> blocks[k].at % 8 == 0 && At(buf, blocks[k].at, blocks[k].data)
  }

  lemma {:induction false} RingBlocksAligned(rings: seq<PArray>, f: Flags, buf: seq<Byte>, at: nat)
    requires forall k :: 0 <= k < |rings| ==> SoundArray(rings[k]) && Fits(rings[k], f)
    requires at % 8 == 0 && At(buf, at, RingData(rings))
    ensures WellPlaced(RingBlocks(rings, at), buf)
  {
    if |rings| > 0 {
      var front, last := rings[..|rings| - 1], rings[|rings| - 1];
      AtConcat(buf, at, RingData(front), last.data);
      RingSizes(front, f);
      RingBlocksAligned(front, f, buf, at);
    }
  }

  /** Written at a multiple of eight, every run of ordinates starts on one. */
  lemma {:induction false} BlocksAligned(g: Geom, buf: seq<Byte>, at: nat)
    requires Sound(g) && Uniform(g) && at % 8 == 0 && At(buf, at, Image(g))
    ensures WellPlaced(Blocks(g, at), buf)
    decreases g, 1
  {
    hide Head, Counts, Zeros, ArraySize, At, Ordinates, IsSimpleType, IsCollectionType, ImageAll, RingData;
    match g
    case Simple(t, f, points) =>
      AtConcat(buf, at, Head(t, points.npoints), Ordinates(t, points));
    case Polygon(f, rings) =>
      var n := |rings|;
      AtConcat(buf, at, Head(POLYGONTYPE, n), Counts(rings) + Zeros(Padding(n)) + RingData(rings));
      AtConcat(buf, at + 8, Counts(rings) + Zeros(Padding(n)), RingData(rings));
      assert (at + 8 + 4 * n + Padding(n)) % 8 == 0;
      RingBlocksAligned(rings, f, buf, at + 8 + 4 * n + Padding(n));
    case Collection(t, f, geoms) =>
      AtConcat(buf, at, Head(t, |geoms|), ImageAll(geoms));
      AllBlocksAligned(geoms, buf, at + 8);
  }

  lemma {:induction false} AllBlocksAligned(gs: seq<Geom>, buf: seq<Byte>, at: nat)
    requires forall k :: 0 <= k < |gs| ==> Sound(gs[k]) && Uniform(gs[k])
    requires at % 8 == 0 && At(buf, at, ImageAll(gs))
    ensures WellPlaced(AllBlocks(gs, at), buf)
    decreases gs, 0
  {
    hide At, Image, Sound, Uniform, Blocks;
    if |gs| > 0 {
      var front, last := gs[..|gs| - 1], gs[|gs| - 1];
      AtConcat(buf, at, ImageAll(front), Image(last));
      SizesAreExact(front);
      AllBlocksAligned(front, buf, at);
      BlocksAligned(last, buf, at + |ImageAll(front)|);
    }
  }

  // ---- Reading ----

  datatype Error = DimensionMismatch | SizeMismatch | Overrun | UnknownType | InvalidSubtype | Truncated

  datatype Result<T> = Ok(value: T) | Err(error: Error)

  /** A value read and the offset behind it. */
  datatype Read<T> = Read(value: T, next: nat)

  function ReadSimple(buf: seq<Byte>, at: nat, t: nat, f: Flags): (r: Result<Read<Geom>>)
    requires at + 8 <= |buf|
    ensures r.Ok? ==> at + 8 <= r.value.next <= |buf|
  {
    var npoints := U32(buf, at + 4);
    var size := ArraySize(npoints, f.z, f.m);
    if at + 8 + size > |buf| then Err(Truncated)
    else
      var kept := if t == POINTTYPE && npoints > 0 then 1 else npoints;
      var data := buf[at + 8..at + 8 + ArraySize(kept, f.z, f.m)];
      Ok(Read(Simple(t, f, PArray(f.z, f.m, kept, data)), at + 8 + size))
  }

  /** k rings: their counts from `count` on, their ordinates from `ordinate` on. */
  function ReadRings(buf: seq<Byte>, count: nat, ordinate: nat, f: Flags, k: nat): (r: Result<Read<seq<PArray>>>)
    requires ordinate <= |buf|
    ensures r.Ok? ==> ordinate <= r.value.next <= |buf| && |r.value.value| == k
  {
    if k == 0 then Ok(Read([], ordinate))
    else
      match ReadRings(buf, count, ordinate, f, k - 1)
      case Err(e) => Err(e)
      case Ok(Read(front, at)) =>
        if count + 4 * k > |buf| then Err(Truncated)
        else
          var npoints := U32(buf, count + 4 * (k - 1));
          var size := ArraySize(npoints, f.z, f.m);
          if at + size > |buf| then Err(Truncated)
          else Ok(Read(front + [PArray(f.z, f.m, npoints, buf[at..at + size])], at + size))
  }

  function ReadPolygon(buf: seq<Byte>, at: nat, f: Flags): (r: Result<Read<Geom>>)
    requires at + 8 <= |buf|
    ensures r.Ok? ==> at + 8 <= r.value.next <= |buf|
  {
    var nrings := U32(buf, at + 4);
    var ordinate := at + 8 + 4 * nrings + Padding(nrings);
    if ordinate > |buf| then Err(Truncated)
    else
      match ReadRings(buf, at + 8, ordinate, f, nrings)
      case Err(e) => Err(e)
      case Ok(Read(rings, next)) => Ok(Read(Polygon(f, rings), next))
  }

  function ReadGeom(buf: seq<Byte>, at: nat, f: Flags): (r: Result<Read<Geom>>)
    ensures r.Ok? ==> at + 8 <= r.value.next <= |buf|
    decreases |buf| - at, 0, 1
  {
    if at + 4 > |buf| then Err(Truncated)
    else
      var t := U32(buf, at);
      if !IsSimpleType(t) && !IsCollectionType(t) && t != POLYGONTYPE then Err(UnknownType)
      else if at + 8 > |buf| then Err(Truncated)
      else if t == POLYGONTYPE then ReadPolygon(buf, at, f)
      else if IsSimpleType(t) then ReadSimple(buf, at, t, f)
      else
        match ReadGeoms(buf, at + 8, t, f.(box := false), U32(buf, at + 4))
        case Err(e) => Err(e)
        case Ok(Read(geoms, next)) => Ok(Read(Collection(t, f, geoms), next))
  }

  /** The k members of a collection of type t. */
  function ReadGeoms(buf: seq<Byte>, at: nat, t: nat, f: Flags, k: nat): (r: Result<Read<seq<Geom>>>)
    requires at <= |buf|
    ensures r.Ok? ==> at <= r.value.next <= |buf| && |r.value.value| == k
    decreases |buf| - at, k + 1, 0
  {
    if k == 0 then Ok(Read([], at))
    else
      match ReadGeoms(buf, at, t, f, k - 1)
      case Err(e) => Err(e)
      case Ok(Read(front, here)) =>
        if here + 4 > |buf| then Err(Truncated)
        else if !AllowsSubtype(t, U32(buf, here)) then Err(InvalidSubtype)
        else
          match ReadGeom(buf, here, f)
          case Err(e) => Err(e)
          case Ok(Read(g, next)) => Ok(Read(front + [g], next))
  }

  // ---- Reading back what was written ----

  /** g with the flags a reader hands down: f on top, f without the box below. */
  function Flagged(g: Geom, f: Flags): Geom {
    match g
    case Simple(t, _, points) => Simple(t, f, points)
    case Polygon(_, rings) => Polygon(f, rings)
    case Collection(t, _, geoms) => Collection(t, f, FlaggedAll(geoms, f.(box := false)))
    case Unknown(t, _) => Unknown(t, f)
  }

  function FlaggedAll(gs: seq<Geom>, f: Flags): (r: seq<Geom>)
    ensures |r| == |gs|
  {
    if |gs| == 0 then [] else FlaggedAll(gs[..|gs| - 1], f) + [Flagged(gs[|gs| - 1], f)]
  }

  lemma RingReadsBack(front: seq<PArray>, last: PArray, buf: seq<Byte>, count: nat, ordinate: nat, at: nat, f: Flags)
    requires SoundArray(last) && Fits(last, f) && ordinate <= |buf|
    requires ReadRings(buf, count, ordinate, f, |front|) == Ok(Read(front, at))
    requires At(buf, count + 4 * |front|, LE32(last.npoints)) && At(buf, at, last.data)
    ensures ReadRings(buf, count, ordinate, f, |front| + 1) == Ok(Read(front + [last], at + |last.data|))
  {
    hide LE32, U32, ArraySize, At;
    WordAt(buf, count + 4 * |front|, last.npoints);
    SliceAt(buf, at, last.data);
  }

  lemma NoRingsReadBack(buf: seq<Byte>, count: nat, ordinate: nat, f: Flags)
    requires At(buf, ordinate, RingData([]))
    ensures ordinate <= |buf| && ReadRings(buf, count, ordinate, f, 0) == Ok(Read([], ordinate + |RingData([])|))
  {
  }

  lemma {:induction false} RingsReadBack(rings: seq<PArray>, buf: seq<Byte>, count: nat, ordinate: nat, f: Flags)
    requires forall k :: 0 <= k < |rings| ==> SoundArray(rings[k]) && Fits(rings[k], f)
    requires At(buf, count, Counts(rings)) && At(buf, ordinate, RingData(rings))
    ensures ordinate <= |buf| && ReadRings(buf, count, ordinate, f, |rings|) == Ok(Read(rings, ordinate + |RingData(rings)|))
  {
    hide LE32, U32, ArraySize, At, SoundArray, Fits, ReadRings;
    if |rings| > 0 {
      var k := |rings| - 1;
      var front, last := rings[..k], rings[k];
      AtConcat(buf, count, Counts(front), LE32(last.npoints));
      AtConcat(buf, ordinate, RingData(front), last.data);
      RingsReadBack(front, buf, count, ordinate, f);
      RingReadsBack(front, last, buf, count, ordinate, ordinate + |RingData(front)|, f);
      assert rings == front + [last];
    } else {
      NoRingsReadBack(buf, count, ordinate, f);
    }
  }

  lemma HeadAt(buf: seq<Byte>, at: nat, t: nat, n: nat)
    requires t < WORD && n < WORD && At(buf, at, Head(t, n))
    ensures at + 8 <= |buf| && U32(buf, at) == t && U32(buf, at + 4) == n
  {
    AtConcat(buf, at, LE32(t), LE32(n));
    WordAt(buf, at, t);
    WordAt(buf, at + 4, n);
  }

  lemma SimpleReadsBack(g: Geom, buf: seq<Byte>, at: nat, f: Flags)
    requires Sound(g) && Uniform(g) && g.Simple? && SameDims(g.flags, f) && At(buf, at, Image(g))
    ensures ReadGeom(buf, at, f) == Ok(Read(Flagged(g, f), at + |Image(g)|))
  {
    hide At, LE32, U32, ArraySize, Ordinates, Head, ReadPolygon, ReadGeoms;
    var t, points := g.type_, g.points;
    assert Ordinates(t, points) == points.data;
    AtConcat(buf, at, Head(t, points.npoints), points.data);
    HeadAt(buf, at, t, points.npoints);
    SliceAt(buf, at + 8, points.data);
  }

  lemma PolygonReadsBack(g: Geom, buf: seq<Byte>, at: nat, f: Flags)
    requires Sound(g) && Uniform(g) && g.Polygon? && SameDims(g.flags, f) && At(buf, at, Image(g))
    ensures ReadGeom(buf, at, f) == Ok(Read(Flagged(g, f), at + |Image(g)|))
  {
    hide At, LE32, U32, ArraySize, Head, ReadSimple, ReadGeoms, Counts, RingData, ReadRings, IsSimpleType, IsCollectionType;
    var rings := g.rings;
    var counts, pad := Counts(rings), Zeros(Padding(|rings|));
    AtConcat(buf, at, Head(POLYGONTYPE, |rings|), counts + pad + RingData(rings));
    HeadAt(buf, at, POLYGONTYPE, |rings|);
    AtConcat(buf, at + 8, counts + pad, RingData(rings));
    AtConcat(buf, at + 8, counts, pad);
    RingsReadBack(rings, buf, at + 8, at + 8 + |counts| + |pad|, f);
  }

  /** Reading a written geometry gives it back, with types, nesting, counts and ordinates,
      exactly when every member's type is allowed in its collection. */
  lemma {:induction false} ReadsBack(g: Geom, buf: seq<Byte>, at: nat, f: Flags)
    requires Sound(g) && Uniform(g) && SameDims(g.flags, f) && At(buf, at, Image(g))
    ensures ReadGeom(buf, at, f)
            == if Allowed(g) then Ok(Read(Flagged(g, f), at + |Image(g)|)) else Err(InvalidSubtype)
    decreases g, 1
  {
    hide At, LE32, U32, ArraySize, Head, ReadSimple, ReadGeoms, ReadPolygon, ImageAll, Counts, RingData, FlaggedAll;
    match g
    case Simple(_, _, _) => SimpleReadsBack(g, buf, at, f);
    case Polygon(_, _) => PolygonReadsBack(g, buf, at, f);
    case Collection(t, _, geoms) =>
      AtConcat(buf, at, Head(t, |geoms|), ImageAll(geoms));
      HeadAt(buf, at, t, |geoms|);
      AllReadBack(geoms, buf, at + 8, t, f.(box := false));
  }

  predicate AllAllowed(t: nat, gs: seq<Geom>) {
    forall k :: 0 <= k < |gs| ==> AllowsSubtype(t, gs[k].Type()) && Allowed(gs[k])
  }

  lemma {:induction false} AllReadBack(gs: seq<Geom>, buf: seq<Byte>, at: nat, t: nat, f: Flags)
    requires forall k :: 0 <= k < |gs| ==> Sound(gs[k]) && Uniform(gs[k]) && SameDims(gs[k].flags, f)
    requires At(buf, at, ImageAll(gs))
    ensures ReadGeoms(buf, at, t, f, |gs|)
            == if AllAllowed(t, gs) then Ok(Read(FlaggedAll(gs, f), at + |ImageAll(gs)|)) else Err(InvalidSubtype)
    decreases gs, 0
  {
    hide At, LE32, U32, ArraySize, Head, ReadGeom, Image, Flagged, Allowed, AllowsSubtype, Sound, Uniform;
    if |gs| > 0 {
      var k := |gs| - 1;
      var front, last := gs[..k], gs[k];
      AtConcat(buf, at, ImageAll(front), Image(last));
      AllReadBack(front, buf, at, t, f);
      var here := at + |ImageAll(front)|;
      ReadsBack(last, buf, here, f);
      TypeAt(last, buf, here);
      assert AllAllowed(t, gs) <==> AllAllowed(t, front) && AllowsSubtype(t, last.Type()) && Allowed(last) by {
        assert forall j :: 0 <= j < k ==> gs[j] == front[j];
      }
    }
  }

  /** A written geometry starts with its type. */
  lemma TypeAt(g: Geom, buf: seq<Byte>, at: nat)
    requires Sound(g) && Uniform(g) && At(buf, at, Image(g))
    ensures at + 8 <= |buf| && U32(buf, at) == g.Type()
  {
    match g
    case Simple(t, _, points) =>
      AtConcat(buf, at, Head(t, points.npoints), Ordinates(t, points));
      HeadAt(buf, at, t, points.npoints);
    case Polygon(_, rings) =>
      AtConcat(buf, at, Head(POLYGONTYPE, |rings|), Counts(rings) + Zeros(Padding(|rings|)) + RingData(rings));
      HeadAt(buf, at, POLYGONTYPE, |rings|);
    case Collection(t, _, geoms) =>
      AtConcat(buf, at, Head(t, |geoms|), ImageAll(geoms));
      HeadAt(buf, at, t, |geoms|);
  }
}
