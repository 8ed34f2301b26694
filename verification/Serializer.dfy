/** Writing a geometry into a byte buffer (the writers of src/g_serialized.c). */
module Serializer {
  import opened Bytes
  import opened Serialized

  /** No writer objects to g: a line is only asked whether Z agrees. */
  predicate Accepted(g: Geom) {
    match g
    case Simple(t, f, points) => if t == LINETYPE then points.hasz == f.z else Fits(points, f)
    case Polygon(f, rings) => forall k :: 0 <= k < |rings| ==> Fits(rings[k], f)
    case Collection(_, f, geoms) =>
      forall k :: 0 <= k < |geoms| ==> SameDims(geoms[k].flags, f) && Accepted(geoms[k])
    case Unknown(_, _) => false
  }

  lemma {:induction false} UniformIsAccepted(g: Geom)
    requires Uniform(g)
    ensures Accepted(g)
  {
    if g.Collection? {
      forall k | 0 <= k < |g.geoms|
        ensures Accepted(g.geoms[k])
      {
        UniformIsAccepted(g.geoms[k]);
      }
    }
  }

  /** What a writer that should write s at loc left behind. */
  predicate Wrote(before: seq<Byte>, after: seq<Byte>, loc: nat, s: seq<Byte>, accepted: bool, r: Result<nat>) {
    && |after| == |before|
    && (r.Ok? <==> accepted && loc + |s| <= |before|)
    && (r.Ok? ==> r.value == |s| && after == Place(before, loc, s))
    && (r == Err(Overrun) ==> loc + |s| > |before|)
    && (r.Err? && r.error != Overrun ==> !accepted && r.error in {DimensionMismatch, UnknownType})
  }

  /** Appends s to what has been written from loc on. */
  method PutNext(buf: array<Byte>, at: nat, s: seq<Byte>, ghost before: seq<Byte>, ghost loc: nat, ghost done: seq<Byte>)
    returns (ok: bool)
    requires at == loc + |done| <= buf.Length == |before|
    requires buf[..] == Place(before, loc, done)
    modifies buf
    ensures ok == (at + |s| <= buf.Length)
    ensures ok ==> buf[..] == Place(before, loc, done + s)
  {
    ok := Put(buf, at, s);
    if ok {
      PlaceConcat(before, loc, done, s);
    }
  }

  /** The type and a count, as every geometry starts. */
  method PutHead(buf: array<Byte>, loc: nat, t: nat, n: nat) returns (ok: bool)
    requires loc <= buf.Length
    modifies buf
    ensures ok == (loc + 8 <= buf.Length)
    ensures ok ==> buf[..] == Place(old(buf[..]), loc, Head(t, n))
  {
    hide LE32;
    ghost var before := buf[..];
    PlaceNothing(before, loc);
    ok := PutNext(buf, loc, LE32(t), before, loc, []);
    if ok {
      assert [] + LE32(t) == LE32(t);
      ok := PutNext(buf, loc + 4, LE32(n), before, loc, LE32(t));
    }
  }

  method FromPoint(g: Geom, buf: array<Byte>, loc: nat) returns (r: Result<nat>)
    requires Sound(g) && g.Simple? && g.type_ == POINTTYPE && loc <= buf.Length
    modifies buf
    ensures Wrote(old(buf[..]), buf[..], loc, Image(g), Accepted(g), r)
  {
    hide Head, Place, ArraySize;
    var point := g.points;
    if !(point.hasz == g.flags.z && point.hasm == g.flags.m) {
      return Err(DimensionMismatch);
    }
    ghost var before := buf[..];
    var ok := PutHead(buf, loc, POINTTYPE, point.npoints);
    if !ok {
      return Err(Overrun);
    }
    ghost var head := Head(POINTTYPE, point.npoints);
    if point.npoints > 0 {
      var size := PointSize(point.hasz, point.hasm);
      ok := PutNext(buf, loc + 8, point.data[..size], before, loc, head);
      if !ok {
        return Err(Overrun);
      }
      return Ok(8 + size);
    }
    assert head + [] == head;
    return Ok(8);
  }

  /** Lines, triangles and circular strings, which differ in the check alone. */
  method FromPoints(g: Geom, buf: array<Byte>, loc: nat) returns (r: Result<nat>)
    requires Sound(g) && g.Simple? && g.type_ != POINTTYPE && loc <= buf.Length
    modifies buf
    ensures Wrote(old(buf[..]), buf[..], loc, Image(g), Accepted(g), r)
  {
    hide Head, Place, ArraySize;
    var points := g.points;
    if points.hasz != g.flags.z || (g.type_ != LINETYPE && points.hasm != g.flags.m) {
      return Err(DimensionMismatch);
    }
    ghost var before := buf[..];
    var ok := PutHead(buf, loc, g.type_, points.npoints);
    if !ok {
      return Err(Overrun);
    }
    ghost var head := Head(g.type_, points.npoints);
    if points.npoints > 0 {
      ok := PutNext(buf, loc + 8, points.data, before, loc, head);
      if !ok {
        return Err(Overrun);
      }
      return Ok(8 + |points.data|);
    }
    assert points.data == [] && head + [] == head;
    return Ok(8);
  }

  lemma CountsStep(rings: seq<PArray>, i: nat)
    requires i < |rings|
    ensures Counts(rings[..i + 1]) == Counts(rings[..i]) + LE32(rings[i].npoints)
    ensures RingData(rings[..i + 1]) == RingData(rings[..i]) + rings[i].data
  {
    assert rings[..i + 1][..i] == rings[..i];
  }

  lemma {:induction false} RingDataGrows(rings: seq<PArray>, i: nat)
    requires i <= |rings|
    ensures |RingData(rings[..i])| <= |RingData(rings)|
    decreases |rings| - i
  {
    if i < |rings| {
      CountsStep(rings, i);
      RingDataGrows(rings, i + 1);
    } else {
      assert rings[..i] == rings;
    }
  }

  method PutCounts(rings: seq<PArray>, buf: array<Byte>, loc: nat) returns (ok: bool)
    requires loc <= buf.Length
    modifies buf
    ensures ok == (loc + 4 * |rings| <= buf.Length)
    ensures ok ==> buf[..] == Place(old(buf[..]), loc, Counts(rings))
  {
    hide LE32, Place, Counts;
    ghost var before := buf[..];
    PlaceNothing(before, loc);
    EmptyRings();
    assert rings[..0] == [];
    for i := 0 to |rings|
      invariant loc + 4 * i <= buf.Length
      invariant buf[..] == Place(before, loc, Counts(rings[..i]))
    {
      var fits := PutNext(buf, loc + 4 * i, LE32(rings[i].npoints), before, loc, Counts(rings[..i]));
      if !fits {
        return false;
      }
      CountsStep(rings, i);
    }
    assert rings[..|rings|] == rings;
    return true;
  }

  lemma EmptyRings()
    ensures Counts([]) == [] && RingData([]) == []
  {
  }

  method PutRings(rings: seq<PArray>, f: Flags, buf: array<Byte>, loc: nat) returns (r: Result<nat>)
    requires loc <= buf.Length
    modifies buf
    ensures Wrote(old(buf[..]), buf[..], loc, RingData(rings), forall k :: 0 <= k < |rings| ==> Fits(rings[k], f), r)
  {
    hide Place, RingData;
    ghost var before := buf[..];
    PlaceNothing(before, loc);
    EmptyRings();
    assert rings[..0] == [];
    var size := 0;
    for i := 0 to |rings|
      invariant size == |RingData(rings[..i])| && loc + size <= buf.Length
      invariant buf[..] == Place(before, loc, RingData(rings[..i]))
      invariant forall k :: 0 <= k < i ==> Fits(rings[k], f)
    {
      var pa := rings[i];
      if !(pa.hasz == f.z && pa.hasm == f.m) {
        return Err(DimensionMismatch);
      }
      var ok := PutNext(buf, loc + size, pa.data, before, loc, RingData(rings[..i]));
      CountsStep(rings, i);
      RingDataGrows(rings, i + 1);
      if !ok {
        return Err(Overrun);
      }
      size := size + |pa.data|;
    }
    assert rings[..|rings|] == rings;
    return Ok(size);
  }

  lemma PolygonImage(g: Geom)
    requires Sound(g) && g.Polygon?
    ensures Image(g) == Head(POLYGONTYPE, |g.rings|) + Counts(g.rings) + Zeros(Padding(|g.rings|)) + RingData(g.rings)
  {
    hide Head, Counts, Zeros, RingData;
  }

  method FromPolygon(g: Geom, buf: array<Byte>, loc: nat) returns (r: Result<nat>)
    requires Sound(g) && g.Polygon? && loc <= buf.Length
    modifies buf
    ensures Wrote(old(buf[..]), buf[..], loc, Image(g), Accepted(g), r)
  {
    hide Head, Place, Counts, RingData, Zeros, ArraySize, Image;
    PolygonImage(g);
    ghost var before := buf[..];
    var rings := g.rings;
    var ok := PutHead(buf, loc, POLYGONTYPE, |rings|);
    if !ok {
      return Err(Overrun);
    }
    ghost var head, counts, pad, data := Head(POLYGONTYPE, |rings|), Counts(rings), Zeros(Padding(|rings|)), RingData(rings);
    var at := loc + 8;
    ok := PutCounts(rings, buf, at);
    if !ok {
      return Err(Overrun);
    }
    PlaceConcat(before, loc, head, counts);
    at := at + 4 * |rings|;
    if |rings| % 2 == 1 {
      ok := PutNext(buf, at, Zeros(4), before, loc, head + counts);
      if !ok {
        return Err(Overrun);
      }
      at := at + 4;
    } else {
      assert pad == [] && head + counts + pad == head + counts;
    }
    assert buf[..] == Place(before, loc, head + counts + pad);
    var size := PutRings(rings, g.flags, buf, at);
    if size.Err? {
      return Err(size.error);
    }
    PlaceConcat(before, loc, head + counts + pad, data);
    return Ok(at - loc + size.value);
  }

  lemma ImageStep(gs: seq<Geom>, i: nat)
    requires i < |gs| && forall k :: 0 <= k < |gs| ==> Sound(gs[k])
    ensures ImageAll(gs[..i + 1]) == ImageAll(gs[..i]) + Image(gs[i])
  {
    assert gs[..i + 1][..i] == gs[..i];
  }

  lemma {:induction false} ImageAllGrows(gs: seq<Geom>, i: nat)
    requires i <= |gs| && forall k :: 0 <= k < |gs| ==> Sound(gs[k])
    ensures |ImageAll(gs[..i])| <= |ImageAll(gs)|
    decreases |gs| - i
  {
    if i < |gs| {
      ImageStep(gs, i);
      ImageAllGrows(gs, i + 1);
    } else {
      assert gs[..i] == gs;
    }
  }

  method FromCollection(g: Geom, buf: array<Byte>, loc: nat) returns (r: Result<nat>)
    requires Sound(g) && g.Collection? && loc <= buf.Length
    modifies buf
    ensures Wrote(old(buf[..]), buf[..], loc, Image(g), Accepted(g), r)
    decreases g, 0
  {
    hide Head, Place, ImageAll, IsCollectionType;
    ghost var before := buf[..];
    var geoms := g.geoms;
    var ok := PutHead(buf, loc, g.type_, |geoms|);
    if !ok {
      return Err(Overrun);
    }
    ghost var head := Head(g.type_, |geoms|);
    var at := loc + 8;
    NoImages(geoms);
    assert head + [] == head;
    for i := 0 to |geoms|
      invariant at == loc + |head + ImageAll(geoms[..i])| <= buf.Length
      invariant buf[..] == Place(before, loc, head + ImageAll(geoms[..i]))
      invariant forall k :: 0 <= k < i ==> SameDims(geoms[k].flags, g.flags) && Accepted(geoms[k])
    {
      if !(g.flags.z == geoms[i].flags.z && g.flags.m == geoms[i].flags.m) {
        return Err(DimensionMismatch);
      }
      var subsize := FromGeomAny(geoms[i], buf, at);
      ImageStep(geoms, i);
      ImageAllGrows(geoms, i + 1);
      if subsize.Err? {
        return Err(subsize.error);
      }
      PlaceConcat(before, loc, head + ImageAll(geoms[..i]), Image(geoms[i]));
      assert head + ImageAll(geoms[..i]) + Image(geoms[i]) == head + ImageAll(geoms[..i + 1]);
      at := at + subsize.value;
    }
    assert geoms[..|geoms|] == geoms;
    return Ok(at - loc);
  }

  lemma NoImages(gs: seq<Geom>)
    ensures gs[..0] == [] && ImageAll([]) == []
  {
  }

  /** Writes the image of g at loc and returns its size; fails exactly when a check
      objects or the image does not fit. */
  method FromGeomAny(g: Geom, buf: array<Byte>, loc: nat) returns (r: Result<nat>)
    requires Sound(g) && loc <= buf.Length
    modifies buf
    ensures Wrote(old(buf[..]), buf[..], loc, Image(g), Accepted(g), r)
    decreases g, 1
  {
    match g
    case Simple(t, _, _) =>
      if t == POINTTYPE {
        r := FromPoint(g, buf, loc);
      } else {
        r := FromPoints(g, buf, loc);
      }
    case Polygon(_, _) => r := FromPolygon(g, buf, loc);
    case Collection(_, _, _) => r := FromCollection(g, buf, loc);
    case Unknown(_, _) => return Err(UnknownType);
  }

  // ---- Size prediction ----

  /** By how many bytes the predicted size is too large: of a point the vertices that are
      not written, of a line the measures its flags announce, less those they hide. */
  function Excess(g: Geom): int {
    match g
    case Simple(t, f, points) =>
      if t == POINTTYPE then ArraySize(points.npoints, f.z, f.m) - if points.npoints > 0 then PointSize(f.z, f.m) else 0
      else if t != LINETYPE || points.hasm == f.m then 0
      else if f.m then 8 * points.npoints
      else -8 * points.npoints
    case Polygon(_, _) => 0
    case Collection(_, _, geoms) => ExcessOfAll(geoms)
    case Unknown(_, _) => 0
  }

  function ExcessOfAll(gs: seq<Geom>): int {
    if |gs| == 0 then 0 else ExcessOfAll(gs[..|gs| - 1]) + Excess(gs[|gs| - 1])
  }

  lemma MeasureBytes(n: nat, z: bool)
    ensures ArraySize(n, z, true) == ArraySize(n, z, false) + 8 * n
  {
  }

  lemma SimpleExcess(g: Geom)
    requires Sound(g) && Accepted(g) && g.Simple?
    ensures SizeOf(g) == |Image(g)| + Excess(g)
  {
    var points := g.points;
    assert |Image(g)| == 8 + |Ordinates(g.type_, points)|;
    hide ArraySize;
    MeasureBytes(points.npoints, points.hasz);
  }

  /** The counts tell how far prediction and writing differ. */
  lemma {:induction false} ExcessIsExact(g: Geom)
    requires Sound(g) && Accepted(g)
    ensures SizeOf(g) == |Image(g)| + Excess(g)
    decreases g, 1
  {
    hide Head, Counts, Zeros, ArraySize, Ordinates, IsSimpleType, IsCollectionType;
    hide ImageAll, SizeOfAll, ExcessOfAll, RingData, SizeOfRings;
    match g
    case Simple(_, _, _) => SimpleExcess(g);
    case Polygon(f, rings) => RingSizes(rings, f);
    case Collection(_, _, geoms) => ExcessesAreExact(geoms);
  }

  lemma {:induction false} ExcessesAreExact(gs: seq<Geom>)
    requires forall k :: 0 <= k < |gs| ==> Sound(gs[k]) && Accepted(gs[k])
    ensures SizeOfAll(gs) == |ImageAll(gs)| + ExcessOfAll(gs)
    decreases gs, 0
  {
    hide Image, SizeOf, Sound, Accepted, Excess;
    if |gs| > 0 {
      ExcessesAreExact(gs[..|gs| - 1]);
      ExcessIsExact(gs[|gs| - 1]);
    }
  }

  /** No line has measures that its flags hide. */
  predicate NothingHidden(g: Geom) {
    match g
    case Simple(t, f, points) => t == LINETYPE && points.hasm ==> f.m
    case Collection(_, _, geoms) => forall k :: 0 <= k < |geoms| ==> NothingHidden(geoms[k])
    case _ => true
  }

  /** No point has a second vertex, and no line with a vertex differs in M. */
  predicate Lean(g: Geom) {
    match g
    case Simple(t, f, points) =>
      if t == POINTTYPE then points.npoints <= 1
      else t == LINETYPE && points.hasm != f.m ==> points.npoints == 0
    case Collection(_, _, geoms) => forall k :: 0 <= k < |geoms| ==> Lean(geoms[k])
    case _ => true
  }

  /** Only hidden measures can make up for what is announced and not written: without them
      the sizes agree exactly for lean geometries. */
  lemma {:induction false} OnlyHiddenCancels(g: Geom)
    requires NothingHidden(g)
    ensures Excess(g) >= 0 && (Excess(g) == 0 <==> Lean(g))
    decreases g, 1
  {
    match g
    case Simple(t, f, points) =>
      if points.npoints > 0 {
        SecondVertexShows(points.npoints, f);
      }
    case Collection(_, _, geoms) => AllHiddenCancel(geoms);
    case _ =>
  }

  lemma SecondVertexShows(n: nat, f: Flags)
    requires n > 0
    ensures ArraySize(n, f.z, f.m) >= PointSize(f.z, f.m)
    ensures ArraySize(n, f.z, f.m) == PointSize(f.z, f.m) <==> n <= 1
  {
    if n > 1 {
      assert ArraySize(n, f.z, f.m) == PointSize(f.z, f.m) + (n - 1) * PointSize(f.z, f.m);
      assert (n - 1) * PointSize(f.z, f.m) >= PointSize(f.z, f.m) > 0;
    }
  }

  lemma {:induction false} AllHiddenCancel(gs: seq<Geom>)
    requires forall k :: 0 <= k < |gs| ==> NothingHidden(gs[k])
    ensures ExcessOfAll(gs) >= 0
    ensures ExcessOfAll(gs) == 0 <==> forall k :: 0 <= k < |gs| ==> Lean(gs[k])
    decreases gs, 0
  {
    hide NothingHidden, Excess, Lean;
    if |gs| > 0 {
      var k := |gs| - 1;
      AllHiddenCancel(gs[..k]);
      OnlyHiddenCancels(gs[k]);
      assert forall j :: 0 <= j < k ==> gs[..k][j] == gs[j];
    }
  }

  lemma SizeStep(rings: seq<PArray>, f: Flags, i: nat)
    requires i < |rings|
    ensures SizeOfRings(rings[..i + 1], f) == SizeOfRings(rings[..i], f) + 4 + ArraySize(rings[i].npoints, f.z, f.m)
  {
    assert rings[..i + 1][..i] == rings[..i];
  }

  /** gserialized_from_any_size. */
  method FromAnySize(g: Geom) returns (size: nat)
    ensures size == SizeOf(g)
  {
    match g
    case Simple(_, f, points) =>
      size := 4;
      size := size + 4;
      size := size + ArraySize(points.npoints, f.z, f.m);
    case Polygon(f, rings) =>
      size := 4;
      size := size + 4;
      if |rings| % 2 == 1 {
        size := size + 4;
      }
      assert rings[..0] == [];
      for i := 0 to |rings|
        invariant size == 8 + Padding(|rings|) + SizeOfRings(rings[..i], f)
      {
        SizeStep(rings, f, i);
        size := size + 4;
        size := size + ArraySize(rings[i].npoints, f.z, f.m);
      }
      assert rings[..|rings|] == rings;
    case Collection(_, _, geoms) =>
      size := 4;
      size := size + 4;
      assert geoms[..0] == [];
      for i := 0 to |geoms|
        invariant size == 8 + SizeOfAll(geoms[..i])
      {
        var subsize := FromAnySize(geoms[i]);
        assert geoms[..i + 1][..i] == geoms[..i];
        size := size + subsize;
      }
      assert geoms[..|geoms|] == geoms;
    case Unknown(_, _) => size := 0;
  }
}
