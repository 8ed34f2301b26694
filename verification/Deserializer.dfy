/** Reading a geometry out of a byte buffer (the readers of src/g_serialized.c). */
module Deserializer {
  import opened Bytes
  import opened Serialized

  method SimpleFromBuffer(buf: seq<Byte>, start: nat, t: nat, f: Flags) returns (r: Result<Read<Geom>>)
    requires start + 8 <= |buf|
    ensures r == ReadSimple(buf, start, t, f)
  {
    hide U32, ArraySize;
    var dataPtr := start + 4;
    var npoints := U32(buf, dataPtr);
    dataPtr := dataPtr + 4;
    var size := ArraySize(npoints, f.z, f.m);
    if dataPtr + size > |buf| {
      return Err(Truncated);
    }
    var points;
    if npoints > 0 {
      var kept := if t == POINTTYPE then 1 else npoints;
      points := PArray(f.z, f.m, kept, buf[dataPtr..dataPtr + ArraySize(kept, f.z, f.m)]);
    } else {
      points := PArray(f.z, f.m, 0, []);
      assert buf[dataPtr..dataPtr] == [];
    }
    dataPtr := dataPtr + size;
    return Ok(Read(Simple(t, f, points), dataPtr));
  }

  lemma {:induction false} RingErrorStays(buf: seq<Byte>, count: nat, ordinate: nat, f: Flags, k: nat, n: nat)
    requires k <= n && ordinate <= |buf| && ReadRings(buf, count, ordinate, f, k).Err?
    ensures ReadRings(buf, count, ordinate, f, n) == ReadRings(buf, count, ordinate, f, k)
  {
    if k < n {
      RingErrorStays(buf, count, ordinate, f, k, n - 1);
    }
  }

  lemma NoRings(buf: seq<Byte>, count: nat, ordinate: nat, f: Flags)
    requires ordinate <= |buf|
    ensures ReadRings(buf, count, ordinate, f, 0) == Ok(Read([], ordinate))
  {
  }

  lemma NextRing(buf: seq<Byte>, count: nat, ordinate: nat, f: Flags, i: nat, rings: seq<PArray>, at: nat)
    requires ordinate <= at <= |buf| && count + 4 * i + 4 <= |buf|
    requires ReadRings(buf, count, ordinate, f, i) == Ok(Read(rings, at))
    ensures var npoints := U32(buf, count + 4 * i);
            var size := ArraySize(npoints, f.z, f.m);
            ReadRings(buf, count, ordinate, f, i + 1)
            == if at + size > |buf| then Err(Truncated)
               else Ok(Read(rings + [PArray(f.z, f.m, npoints, buf[at..at + size])], at + size))
  {
    hide U32, ArraySize;
  }

  method PolygonFromBuffer(buf: seq<Byte>, start: nat, f: Flags) returns (r: Result<Read<Geom>>)
    requires start + 8 <= |buf|
    ensures r == ReadPolygon(buf, start, f)
  {
    hide U32, ArraySize, ReadRings;
    var dataPtr := start + 4;
    var nrings := U32(buf, dataPtr);
    dataPtr := dataPtr + 4;
    ghost var count := dataPtr;
    var ordinatePtr := dataPtr;
    if nrings > 0 {
      ordinatePtr := ordinatePtr + nrings * 4;
      if nrings % 2 == 1 {
        ordinatePtr := ordinatePtr + 4;
      }
    }
    if ordinatePtr > |buf| {
      return Err(Truncated);
    }
    ghost var ordinate := ordinatePtr;
    NoRings(buf, count, ordinate, f);
    var rings: seq<PArray> := [];
    for i := 0 to nrings
      invariant dataPtr == count + 4 * i && ordinate <= ordinatePtr <= |buf|
      invariant ReadRings(buf, count, ordinate, f, i) == Ok(Read(rings, ordinatePtr))
    {
      NextRing(buf, count, ordinate, f, i, rings, ordinatePtr);
      var npoints := U32(buf, dataPtr);
      dataPtr := dataPtr + 4;
      var size := ArraySize(npoints, f.z, f.m);
      if ordinatePtr + size > |buf| {
        RingErrorStays(buf, count, ordinate, f, i + 1, nrings);
        return Err(Truncated);
      }
      rings := rings + [PArray(f.z, f.m, npoints, buf[ordinatePtr..ordinatePtr + size])];
      ordinatePtr := ordinatePtr + size;
    }
    return Ok(Read(Polygon(f, rings), ordinatePtr));
  }

  lemma {:induction false} MemberErrorStays(buf: seq<Byte>, at: nat, t: nat, f: Flags, k: nat, n: nat)
    requires k <= n && at <= |buf| && ReadGeoms(buf, at, t, f, k).Err?
    ensures ReadGeoms(buf, at, t, f, n) == ReadGeoms(buf, at, t, f, k)
  {
    if k < n {
      MemberErrorStays(buf, at, t, f, k, n - 1);
    }
  }

  method CollectionFromBuffer(buf: seq<Byte>, start: nat, f: Flags) returns (r: Result<Read<Geom>>)
    requires start + 8 <= |buf| && IsCollectionType(U32(buf, start))
    ensures r == ReadGeom(buf, start, f)
    decreases |buf| - start, 0
  {
    hide U32, ReadSimple, ReadPolygon, AllowsSubtype;
    var dataPtr := start;
    var t := U32(buf, dataPtr);
    dataPtr := dataPtr + 4;
    var ngeoms := U32(buf, dataPtr);
    dataPtr := dataPtr + 4;
    var flags := f.(box := false);
    var geoms: seq<Geom> := [];
    for i := 0 to ngeoms
      invariant start + 8 <= dataPtr <= |buf|
      invariant ReadGeoms(buf, start + 8, t, flags, i) == Ok(Read(geoms, dataPtr))
    {
      if dataPtr + 4 > |buf| {
        MemberErrorStays(buf, start + 8, t, flags, i + 1, ngeoms);
        return Err(Truncated);
      }
      var subtype := U32(buf, dataPtr);
      if !AllowsSubtype(t, subtype) {
        MemberErrorStays(buf, start + 8, t, flags, i + 1, ngeoms);
        return Err(InvalidSubtype);
      }
      var sub := GeomFromBuffer(buf, dataPtr, flags);
      if sub.Err? {
        MemberErrorStays(buf, start + 8, t, flags, i + 1, ngeoms);
        return Err(sub.error);
      }
      geoms := geoms + [sub.value.value];
      dataPtr := sub.value.next;
    }
    return Ok(Read(Collection(t, f, geoms), dataPtr));
  }

  /** Reads the geometry at an offset; data cut short is reported, never read past. */
  method GeomFromBuffer(buf: seq<Byte>, start: nat, f: Flags) returns (r: Result<Read<Geom>>)
    ensures r == ReadGeom(buf, start, f)
    decreases |buf| - start, 1
  {
    if start + 4 > |buf| {
      return Err(Truncated);
    }
    var t := U32(buf, start);
    if !IsSimpleType(t) && !IsCollectionType(t) && t != POLYGONTYPE {
      return Err(UnknownType);
    }
    if start + 8 > |buf| {
      return Err(Truncated);
    }
    if t == POLYGONTYPE {
      r := PolygonFromBuffer(buf, start, f);
    } else if IsSimpleType(t) {
      r := SimpleFromBuffer(buf, start, t, f);
    } else {
      r := CollectionFromBuffer(buf, start, f);
    }
  }
}
