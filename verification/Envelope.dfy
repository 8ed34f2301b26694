/** The complete serialization of src/g_serialized.c: a header with size, SRID and
    flags, an optional box in single precision, and the geometry. */
module Envelope {
  import opened Bytes
  import opened Serialized
  import opened Serializer
  import opened Deserializer

  // ---- SRID ----

  const SRID_MAXIMUM := 999999
  const SRID_USER_MAXIMUM := 998999

  /** clamp_srid; 0 is the unknown value. */
  function Clamp(srid: int): (c: nat)
    ensures c <= SRID_MAXIMUM
    ensures 0 < srid <= SRID_MAXIMUM ==> c == srid
    ensures srid <= 0 <==> c == 0
    ensures c == if srid <= 0 then 0 else if srid <= 999999 then srid else 999000 + srid % 999
  {
    if srid <= 0 then 0
    else if srid > SRID_MAXIMUM then SRID_USER_MAXIMUM + 1 + srid % (SRID_MAXIMUM - SRID_USER_MAXIMUM - 1)
    else srid
  }

  /** The 21 bits that are stored, highest first. */
  function SridBytes(srid: int): (s: seq<Byte>)
    ensures |s| == 3
  {
    var c := Clamp(srid);
    [c / 0x1_0000 % 0x20, c / 0x100 % 0x100, c % 0x100]
  }

  /** gserialized_get_srid: sign extension from 21 bits, then clamping. */
  function SridOf(s: seq<Byte>): nat
    requires |s| == 3
  {
    var b0: int, b1: int, b2: int := s[0], s[1], s[2];
    var v := (b0 * 0x1_0000 + b1 * 0x100 + b2) % 0x20_0000;
    Clamp(if v >= 0x10_0000 then v - 0x20_0000 else v)
  }

  /** The 21 bits that are read count as a signed number, and are clamped. */
  lemma SridOfBytes(s: seq<Byte>)
    requires |s| == 3
    ensures var v := s[0] as int % 32 * 65536 + s[1] as int * 256 + s[2] as int;
            SridOf(s) == if v >= 1048576 then 0 else if v <= 999999 then v else 999000 + v % 999
  {
    var b: int, low: int := s[0], s[1] as int * 256 + s[2] as int;
    assert b == b % 32 + 32 * (b / 32);
    TopBits(b % 32, b / 32, low);
  }

  lemma TopBits(r: int, q: int, low: int)
    requires 0 <= r < 32 && 0 <= q && 0 <= low < 65536
    ensures ((r + 32 * q) * 65536 + low) % 0x20_0000 == r * 65536 + low
  {
    assert (r + 32 * q) * 65536 + low == r * 65536 + low + 0x20_0000 * q;
  }

  /** Whatever SRID is set, the clamped one is read back. */
  lemma SridRoundTrip(srid: int)
    ensures SridOf(SridBytes(srid)) == Clamp(srid)
  {
    var c := Clamp(srid);
    SplitBytes(c);
    var b: int := c / 0x1_0000 % 0x20 * 0x1_0000 + c / 0x100 % 0x100 * 0x100 + c % 0x100;
    assert b == c && c % 0x20_0000 == c;
  }

  lemma SplitBytes(c: nat)
    requires c < 0x10_0000
    ensures c / 0x1_0000 % 0x20 * 0x1_0000 + c / 0x100 % 0x100 * 0x100 + c % 0x100 == c
  {
    var d := c / 0x100;
    var e := d / 0x100;
    assert c / 0x1_0000 == e < 0x10;
    assert e % 0x20 == e;
    assert d == 0x100 * e + d % 0x100 && c == 0x100 * d + c % 0x100;
  }

  // ---- Flags ----

  function Bit(b: bool): nat { if b then 1 else 0 }

  function FlagByte(f: Flags): Byte {
    Bit(f.z) + 2 * Bit(f.m) + 4 * Bit(f.box) + 8 * Bit(f.geodetic) + 16 * f.rest
  }

  function FlagsOf(b: Byte): Flags {
    Flags(b % 2 == 1, b / 2 % 2 == 1, b / 4 % 2 == 1, b / 8 % 2 == 1, b / 16)
  }

  lemma FlagRoundTrip(f: Flags)
    ensures FlagsOf(FlagByte(f)) == f
  {
    var b: int := FlagByte(f);
    var m, x, g := Bit(f.m), Bit(f.box), Bit(f.geodetic);
    assert b / 2 == m + 2 * x + 4 * g + 8 * f.rest;
    assert b / 4 == x + 2 * g + 4 * f.rest;
    assert b / 8 == g + 2 * f.rest;
  }

  // ---- The box ----

  type Float = s: seq<Byte> | |s| == 4 witness [0, 0, 0, 0]

  /** Conversions between double and single precision, downward and upward. */
  datatype Rounding = Rounding(down: real -> Float, up: real -> Float, widen: Float -> real)

  datatype Range = Range(lo: real, hi: real)
  datatype Option<T> = None | Some(value: T)

  datatype Box = Box(flags: Flags, x: Range, y: Range, z: Option<Range>, m: Option<Range>)

  /** The ranges are those that mean something under the flags. */
  predicate BoxFits(b: Box, f: Flags) {
    && (b.z.Some? <==> f.geodetic || f.z)
    && (b.m.Some? <==> !f.geodetic && f.m)
  }

  predicate BoxShape(b: Box) { BoxFits(b, b.flags) }

  function RangeBytes(r: Range, rnd: Rounding): (s: seq<Byte>)
    ensures |s| == 8
  {
    rnd.down(r.lo) + rnd.up(r.hi)
  }

  function OptionBytes(r: Option<Range>, rnd: Rounding): seq<Byte> {
    if r.Some? then RangeBytes(r.value, rnd) else []
  }

  function BoxBytes(b: Box, rnd: Rounding): seq<Byte> {
    RangeBytes(b.x, rnd) + RangeBytes(b.y, rnd) + OptionBytes(b.z, rnd) + OptionBytes(b.m, rnd)
  }

  /** gbox_serialized_size. */
  function GboxSize(f: Flags): nat {
    if f.geodetic then 24 else PointSize(f.z, f.m)
  }

  /** What single precision leaves of a range. */
  function Widened(r: Range, rnd: Rounding): Range {
    Range(rnd.widen(rnd.down(r.lo)), rnd.widen(rnd.up(r.hi)))
  }

  function WidenedOption(r: Option<Range>, rnd: Rounding): Option<Range> {
    if r.Some? then Some(Widened(r.value, rnd)) else None
  }

  function WidenedBox(b: Box, f: Flags, rnd: Rounding): Box {
    Box(f, Widened(b.x, rnd), Widened(b.y, rnd), WidenedOption(b.z, rnd), WidenedOption(b.m, rnd))
  }

  function RangeAt(s: seq<Byte>, at: nat, rnd: Rounding): Range
    requires at + 8 <= |s|
  {
    Range(rnd.widen(s[at..at + 4]), rnd.widen(s[at + 4..at + 8]))
  }

  /** gserialized_read_gbox_p on a serialization that has a box. */
  function BoxAt(s: seq<Byte>, at: nat, f: Flags, rnd: Rounding): Box
    requires at + GboxSize(f) <= |s|
  {
    var x, y := RangeAt(s, at, rnd), RangeAt(s, at + 8, rnd);
    if f.geodetic then Box(f, x, y, Some(RangeAt(s, at + 16, rnd)), None)
    else if f.z then
      Box(f, x, y, Some(RangeAt(s, at + 16, rnd)), if f.m then Some(RangeAt(s, at + 24, rnd)) else None)
    else Box(f, x, y, None, if f.m then Some(RangeAt(s, at + 16, rnd)) else None)
  }

  lemma RangeReadsBack(s: seq<Byte>, at: nat, r: Range, rnd: Rounding)
    requires At(s, at, RangeBytes(r, rnd))
    ensures at + 8 <= |s| && RangeAt(s, at, rnd) == Widened(r, rnd)
  {
    AtConcat(s, at, rnd.down(r.lo), rnd.up(r.hi));
  }

  lemma BoxBytesSize(b: Box, f: Flags, rnd: Rounding)
    requires BoxFits(b, f)
    ensures |BoxBytes(b, rnd)| == GboxSize(f)
  {
    hide RangeBytes;
  }

  /** A box is read as single precision leaves it, exactly by a reader with the flags it
      fits. */
  lemma BoxReadsBackExactly(s: seq<Byte>, at: nat, b: Box, f: Flags, rnd: Rounding)
    requires At(s, at, BoxBytes(b, rnd)) && at + GboxSize(f) <= |s|
    ensures BoxAt(s, at, f, rnd) == WidenedBox(b, f, rnd) <==> BoxFits(b, f)
  {
    if BoxFits(b, f) {
      BoxReadsBack(s, at, b, f, rnd);
    }
  }

  lemma BoxReadsBack(s: seq<Byte>, at: nat, b: Box, f: Flags, rnd: Rounding)
    requires BoxFits(b, f) && At(s, at, BoxBytes(b, rnd))
    ensures |BoxBytes(b, rnd)| == GboxSize(f)
    ensures at + GboxSize(f) <= |s| && BoxAt(s, at, f, rnd) == WidenedBox(b, f, rnd)
  {
    hide At, RangeBytes, RangeAt, Widened;
    var x, y, z, m := RangeBytes(b.x, rnd), RangeBytes(b.y, rnd), OptionBytes(b.z, rnd), OptionBytes(b.m, rnd);
    AtConcat(s, at, x + y + z, m);
    AtConcat(s, at, x + y, z);
    AtConcat(s, at, x, y);
    RangeReadsBack(s, at, b.x, rnd);
    RangeReadsBack(s, at + 8, b.y, rnd);
    if b.z.Some? {
      RangeReadsBack(s, at + 16, b.z.value, rnd);
    }
    if b.m.Some? {
      RangeReadsBack(s, at + 16 + |z|, b.m.value, rnd);
    }
  }

  // ---- The whole ----

  function BoxPart(box: Option<Box>, rnd: Rounding): seq<Byte> {
    if box.Some? then BoxBytes(box.value, rnd) else []
  }

  function Predicted(g: Geom, box: Option<Box>): nat {
    8 + (if box.Some? then GboxSize(g.flags) else 0) + SizeOf(g)
  }

  /** The flags are brought in line with the presence of a box. */
  function OuterFlags(g: Geom, box: Option<Box>): Flags {
    if box.Some? then g.flags.(box := true) else g.flags
  }

  function Header(n: nat, srid: int, f: Flags): (s: seq<Byte>)
    ensures |s| == 8
  {
    LE32(4 * n) + SridBytes(srid) + [FlagByte(f)]
  }

  function Whole(g: Geom, box: Option<Box>, srid: int, rnd: Rounding): seq<Byte>
    requires Sound(g)
  {
    var body := BoxPart(box, rnd) + Image(g);
    Header(8 + |body|, srid, OuterFlags(g, box)) + body
  }

  /** SIZE_GET on the size field. */
  function SizeField(s: seq<Byte>): nat
    requires |s| >= 4
  {
    U32(s, 0) / 4
  }

  datatype Decoded = Decoded(geom: Geom, srid: nat, box: Option<Box>)

  function Decode(s: seq<Byte>, rnd: Rounding): Result<Decoded> {
    if |s| < 8 then Err(Truncated)
    else
      var f := FlagsOf(s[7]);
      var at := if f.box then 8 + GboxSize(f) else 8;
      match ReadGeom(s, at, f)
      case Err(e) => Err(e)
      case Ok(Read(g, _)) => Ok(Decoded(g, SridOf(s[4..7]), if f.box then Some(BoxAt(s, 8, f, rnd)) else None))
  }

  /** The flags of every part follow from those of the whole. */
  predicate Inherits(g: Geom, f: Flags) {
    && g.flags == f
    && (g.Collection? ==> forall k :: 0 <= k < |g.geoms| ==> Inherits(g.geoms[k], f.(box := false)))
  }

  lemma {:induction false} FlaggedIsSame(g: Geom, f: Flags)
    ensures Flagged(g, f) == g <==> Inherits(g, f)
    decreases g, 1
  {
    if g.Collection? {
      AllFlaggedAreSame(g.geoms, f.(box := false));
    }
  }

  lemma {:induction false} AllFlaggedAreSame(gs: seq<Geom>, f: Flags)
    ensures FlaggedAll(gs, f) == gs <==> forall k :: 0 <= k < |gs| ==> Inherits(gs[k], f)
    decreases gs, 0
  {
    hide Flagged, Inherits;
    if |gs| > 0 {
      var k := |gs| - 1;
      var front, last := gs[..k], gs[k];
      AllFlaggedAreSame(front, f);
      FlaggedIsSame(last, f);
      SameAppend(FlaggedAll(front, f), Flagged(last, f), front, last);
      assert gs == front + [last];
      assert (forall j :: 0 <= j < |gs| ==> Inherits(gs[j], f))
             <==> (forall j :: 0 <= j < k ==> Inherits(front[j], f)) && Inherits(last, f);
    }
  }

  lemma SameAppend<T>(s: seq<T>, x: T, t: seq<T>, y: T)
    requires |s| == |t|
    ensures s + [x] == t + [y] <==> s == t && x == y
  {
    if s + [x] == t + [y] {
      assert s == (s + [x])[..|s|] == t && x == (s + [x])[|s|] == y;
    }
  }

  lemma HeaderReadsBack(s: seq<Byte>, n: nat, srid: int, f: Flags)
    requires At(s, 0, Header(n, srid, f))
    ensures |s| >= 8 && s[4..7] == SridBytes(srid) && s[7] == FlagByte(f)
    ensures SizeField(s) == n <==> n < 0x4000_0000
  {
    hide SridBytes, FlagByte;
    var size, id, flag := LE32(4 * n), SridBytes(srid), [FlagByte(f)];
    AtConcat(s, 0, size + id, flag);
    AtConcat(s, 0, size, id);
    SizeWord(s, n);
  }

  lemma SizeWord(s: seq<Byte>, n: nat)
    requires At(s, 0, LE32(4 * n))
    ensures |s| >= 4
    ensures U32(s, 0) / 4 == n <==> n < 0x4000_0000
  {
    hide At, LE32, U32;
    LowWord(4 * n);
    WordAt(s, 0, 4 * n % WORD);
    QuarterWord(n);
  }

  lemma QuarterWord(n: nat)
    ensures 4 * n % WORD / 4 == n <==> n < 0x4000_0000
  {
    var q, low := 4 * n / WORD, 4 * n % WORD;
    assert 4 * n == low + WORD * q;
  }

  lemma LowWord(n: nat)
    ensures LE32(n) == LE32(n % WORD)
  {
    var q, r := n / WORD, n % WORD;
    assert n == r + WORD * q;
    LowByte(r, 0x100_0000 * q);
    assert n / 0x100 == r / 0x100 + 0x100_0000 * q;
    LowByte(r / 0x100, 0x1_0000 * q);
    assert n / 0x1_0000 == r / 0x1_0000 + 0x1_0000 * q;
    LowByte(r / 0x1_0000, 0x100 * q);
    assert n / 0x100_0000 == r / 0x100_0000 + 0x100 * q;
    LowByte(r / 0x100_0000, q);
  }

  lemma LowByte(r: nat, k: nat)
    ensures (r + 0x100 * k) % 0x100 == r % 0x100
  {
  }

  /** The box has the ranges of the geometry; where there is none, none is announced. */
  predicate BoxAgrees(g: Geom, box: Option<Box>) {
    if box.Some? then BoxFits(box.value, g.flags) else !g.flags.box
  }

  /** A geometry the format is made for: uniform, with a box that agrees. */
  predicate Regular(g: Geom, box: Option<Box>) {
    Sound(g) && Uniform(g) && BoxAgrees(g, box)
  }

  /** Header and image stand where a reader looks for them. */
  lemma WholeParts(g: Geom, box: Option<Box>, srid: int, rnd: Rounding)
    requires Regular(g, box)
    ensures var s, f := Whole(g, box, srid, rnd), OuterFlags(g, box);
            var at := if f.box then 8 + GboxSize(f) else 8;
            && |s| == Predicted(g, box) == at + |Image(g)|
            && f.box == box.Some? && SameDims(f, g.flags) && f.geodetic == g.flags.geodetic
            && FlagsOf(s[7]) == f && SridOf(s[4..7]) == Clamp(srid)
            && (SizeField(s) == |s| <==> |s| < 0x4000_0000)
            && (box.Some? ==> BoxAt(s, 8, f, rnd) == WidenedBox(box.value, f, rnd))
            && At(s, at, Image(g))
  {
    hide Image, Sound, Uniform, SizeOf, BoxBytes, GboxSize, BoxAt, WidenedBox, Header, SridOf, SridBytes, FlagByte, FlagsOf;
    var s := Whole(g, box, srid, rnd);
    var f := OuterFlags(g, box);
    var part, body := BoxPart(box, rnd), BoxPart(box, rnd) + Image(g);
    var head := Header(8 + |body|, srid, f);
    SizeIsExact(g);
    assert At(s, 0, head + body);
    AtConcat(s, 0, head, body);
    AtConcat(s, 8, part, Image(g));
    HeaderReadsBack(s, 8 + |body|, srid, f);
    FlagRoundTrip(f);
    SridRoundTrip(srid);
    if box.Some? {
      BoxReadsBack(s, 8, box.value, f, rnd);
      assert GboxSize(f) == GboxSize(g.flags) by {
        SameGboxSize(f, g.flags);
      }
    }
  }

  function WidenedPart(box: Option<Box>, f: Flags, rnd: Rounding): Option<Box> {
    if box.Some? then Some(WidenedBox(box.value, f, rnd)) else None
  }

  /** In a whole serialization every run of ordinates starts on a multiple of eight. */
  lemma WholeIsAligned(g: Geom, box: Option<Box>, srid: int, rnd: Rounding)
    requires Regular(g, box)
    ensures var f := OuterFlags(g, box);
            WellPlaced(Blocks(g, if f.box then 8 + GboxSize(f) else 8), Whole(g, box, srid, rnd))
  {
    hide Image, Blocks, BoxAt, WidenedBox, Sound, Uniform, SridOf, FlagsOf, SizeOf, Whole;
    WholeParts(g, box, srid, rnd);
    var f := OuterFlags(g, box);
    BlocksAligned(g, Whole(g, box, srid, rnd), if f.box then 8 + GboxSize(f) else 8);
  }

  /** Nothing is lost: a regular geometry comes back with its types, nesting, counts and
      ordinates, the clamped SRID and the rounded box, exactly when every member is
      allowed in its collection. */
  lemma RoundTrip(g: Geom, box: Option<Box>, srid: int, rnd: Rounding)
    requires Regular(g, box)
    ensures |Whole(g, box, srid, rnd)| == Predicted(g, box)
    ensures Decode(Whole(g, box, srid, rnd), rnd)
            == if !Allowed(g) then Err(InvalidSubtype)
               else var f := OuterFlags(g, box);
                    Ok(Decoded(Flagged(g, f), Clamp(srid), WidenedPart(box, f, rnd)))
    ensures SizeField(Whole(g, box, srid, rnd)) == Predicted(g, box) <==> Predicted(g, box) < 0x4000_0000
  {
    hide Image, Whole, Allowed, SizeOf, GboxSize, BoxAt, WidenedBox, SridOf, FlagsOf, Flagged, ReadGeom;
    var s := Whole(g, box, srid, rnd);
    var f := OuterFlags(g, box);
    WholeParts(g, box, srid, rnd);
    ReadsBack(g, s, if f.box then 8 + GboxSize(f) else 8, f);
  }

  /** A box flag without a box is written as it is, and the reader then skips a box that
      is not there. */
  lemma StaleBoxFlag(srid: int, rnd: Rounding)
    ensures var g := Simple(POINTTYPE, Flags(false, false, true, false, 0), PArray(false, false, 0, []));
            Sound(g) && Uniform(g) && Decode(Whole(g, None, srid, rnd), rnd) == Err(Truncated)
  {
    var g := Simple(POINTTYPE, Flags(false, false, true, false, 0), PArray(false, false, 0, []));
    var s := Whole(g, None, srid, rnd);
    assert Image(g) == Head(POINTTYPE, 0) + [] && |s| == 16;
    assert s[7] == FlagByte(g.flags);
    FlagRoundTrip(g.flags);
  }

  /** The writer accepts every regular geometry. */
  lemma RegularIsWritten(g: Geom, box: Option<Box>, rnd: Rounding)
    requires Regular(g, box)
    ensures Accepted(g) && Predicted(g, box) == 8 + |BoxPart(box, rnd)| + |Image(g)|
  {
    hide Image, Accepted, SizeOf;
    UniformIsAccepted(g);
    WholeParts(g, box, 0, rnd);
  }

  lemma SameGboxSize(f: Flags, g: Flags)
    requires f.geodetic == g.geodetic && SameDims(f, g)
    ensures GboxSize(f) == GboxSize(g)
  {
  }

  // ---- Writing ----

  method PutRange(r: Range, rnd: Rounding, buf: array<Byte>, at: nat, ghost before: seq<Byte>, ghost loc: nat, ghost done: seq<Byte>)
    returns (ok: bool)
    requires at == loc + |done| <= buf.Length == |before|
    requires buf[..] == Place(before, loc, done)
    modifies buf
    ensures ok == (at + 8 <= buf.Length)
    ensures ok ==> buf[..] == Place(before, loc, done + RangeBytes(r, rnd))
  {
    hide Place;
    ok := PutNext(buf, at, rnd.down(r.lo), before, loc, done);
    if ok {
      ok := PutNext(buf, at + 4, rnd.up(r.hi), before, loc, done + rnd.down(r.lo));
      assert done + rnd.down(r.lo) + rnd.up(r.hi) == done + RangeBytes(r, rnd);
    }
  }

  method FromGbox(b: Box, rnd: Rounding, buf: array<Byte>, loc: nat) returns (r: Result<nat>)
    requires BoxShape(b) && loc <= buf.Length
    modifies buf
    ensures Wrote(old(buf[..]), buf[..], loc, BoxBytes(b, rnd), true, r)
  {
    hide Place, RangeBytes;
    ghost var before := buf[..];
    ghost var x, y, z, m := RangeBytes(b.x, rnd), RangeBytes(b.y, rnd), OptionBytes(b.z, rnd), OptionBytes(b.m, rnd);
    PlaceNothing(before, loc);
    var ok := PutRange(b.x, rnd, buf, loc, before, loc, []);
    if !ok {
      return Err(Overrun);
    }
    assert [] + x == x;
    ok := PutRange(b.y, rnd, buf, loc + 8, before, loc, x);
    if !ok {
      return Err(Overrun);
    }
    var size := 16;
    if b.flags.geodetic || b.flags.z {
      ok := PutRange(b.z.value, rnd, buf, loc + size, before, loc, x + y);
      if !ok {
        return Err(Overrun);
      }
      size := size + 8;
    }
    assert x + y + [] == x + y && x + y + z + [] == x + y + z;
    if !b.flags.geodetic && b.flags.m {
      ok := PutRange(b.m.value, rnd, buf, loc + size, before, loc, x + y + z);
      if !ok {
        return Err(Overrun);
      }
      size := size + 8;
    }
    return Ok(size);
  }

  method SetSrid(buf: array<Byte>, srid: int)
    requires buf.Length >= 8
    modifies buf
    ensures buf[..] == Place(old(buf[..]), 4, SridBytes(srid))
  {
    var c := Clamp(srid);
    buf[4] := c / 0x1_0000 % 0x20;
    buf[5] := c / 0x100 % 0x100;
    buf[6] := c % 0x100;
  }

  lemma PlaceHeader(before: seq<Byte>, buf: seq<Byte>, n: nat, srid: int, f: Flags, body: seq<Byte>)
    requires |before| == |buf| == 8 + |body| && before == Place(before, 8, body)
    requires buf == Place(Place(before, 0, LE32(4 * n)), 4, SridBytes(srid))[7 := FlagByte(f)]
    ensures buf == Header(n, srid, f) + body
  {
    hide LE32, SridBytes, FlagByte;
    var size, id, flag := LE32(4 * n), SridBytes(srid), [FlagByte(f)];
    PlaceConcat(before, 0, size, id);
    PlaceConcat(before, 0, size + id, flag);
    assert before[8..] == body;
  }

  /** The box, if there is one, and the geometry behind it. */
  method PutBody(g: Geom, box: Option<Box>, rnd: Rounding, buf: array<Byte>) returns (r: Result<nat>)
    requires Sound(g) && (box.Some? ==> BoxShape(box.value)) && buf.Length >= 8
    modifies buf
    ensures Wrote(old(buf[..]), buf[..], 8, BoxPart(box, rnd) + Image(g), Accepted(g), r)
  {
    hide Image, Sound, Accepted, BoxBytes, Place;
    ghost var before := buf[..];
    ghost var part := BoxPart(box, rnd);
    var ptr := 8;
    if box.Some? {
      var n := FromGbox(box.value, rnd, buf, ptr);
      if n.Err? {
        return Err(n.error);
      }
      ptr := ptr + n.value;
    } else {
      PlaceNothing(before, 8);
    }
    var n := FromGeomAny(g, buf, ptr);
    if n.Err? {
      return Err(n.error);
    }
    PlaceConcat(before, 8, part, Image(g));
    return Ok(ptr - 8 + n.value);
  }

  /** How much of the size predicted for the box is not written. */
  function BoxExcess(g: Geom, box: Option<Box>): int {
    if box.Some? then GboxSize(g.flags) - GboxSize(box.value.flags) else 0
  }

  lemma PredictedExcess(g: Geom, box: Option<Box>, rnd: Rounding)
    requires Sound(g) && Accepted(g) && (box.Some? ==> BoxShape(box.value))
    ensures Predicted(g, box) == 8 + |BoxPart(box, rnd)| + |Image(g)| + Excess(g) + BoxExcess(g, box)
  {
    hide Image, SizeOf, Excess, BoxBytes, GboxSize;
    ExcessIsExact(g);
    if box.Some? {
      BoxBytesSize(box.value, box.value.flags, rnd);
    }
  }

  /** gserialized_from_rtgeom, after a box has been added where one is needed. The result
      is the whole serialization; it is missing exactly when a writer objects or the counts
      make the predicted size differ from what is written. */
  method FromGeom(g: Geom, box: Option<Box>, srid: int, rnd: Rounding) returns (r: Result<array<Byte>>)
    requires Sound(g) && (box.Some? ==> BoxShape(box.value))
    ensures r.Ok? <==> Accepted(g) && Predicted(g, box) == 8 + |BoxPart(box, rnd)| + |Image(g)|
    ensures r.Ok? <==> Accepted(g) && Excess(g) + BoxExcess(g, box) == 0
    ensures r.Ok? ==> fresh(r.value) && r.value[..] == Whole(g, box, srid, rnd)
  {
    hide Image, Sound, Accepted, SizeOf, Excess, BoxExcess, BoxPart, GboxSize, Header, SridBytes, FlagByte, LE32, Place;
    if Accepted(g) {
      PredictedExcess(g, box, rnd);
    }
    var flags := if box.Some? then g.flags.(box := true) else g.flags;
    var expectedSize := 8;
    if box.Some? {
      expectedSize := expectedSize + GboxSize(g.flags);
    }
    var anySize := FromAnySize(g);
    expectedSize := expectedSize + anySize;
    var buf := new Byte[expectedSize](_ => 0);
    var written := PutBody(g, box, rnd, buf);
    if written.Err? {
      return Err(written.error);
    }
    var ptr := 8 + written.value;
    if expectedSize != ptr {
      return Err(SizeMismatch);
    }
    ghost var before, body := buf[..], BoxPart(box, rnd) + Image(g);
    PlacedBody(before, body);
    var _ := Put(buf, 0, LE32(4 * ptr));
    SetSrid(buf, srid);
    buf[7] := FlagByte(flags);
    PlaceHeader(before, buf[..], ptr, srid, flags, body);
    return Ok(buf);
  }

  lemma PlacedBody(buf: seq<Byte>, s: seq<Byte>)
    requires |buf| == 8 + |s| && At(buf, 8, s)
    ensures Place(buf, 8, s) == buf
  {
  }

  // ---- Reading ----

  method ReadGbox(s: seq<Byte>, rnd: Rounding) returns (b: Option<Box>)
    requires |s| >= 8 && (FlagsOf(s[7]).box ==> 8 + GboxSize(FlagsOf(s[7])) <= |s|)
    ensures b == if FlagsOf(s[7]).box then Some(BoxAt(s, 8, FlagsOf(s[7]), rnd)) else None
  {
    hide RangeAt, FlagsOf;
    var f := FlagsOf(s[7]);
    if f.box {
      var i := 8;
      var x := RangeAt(s, i, rnd);
      i := i + 8;
      var y := RangeAt(s, i, rnd);
      i := i + 8;
      if f.geodetic {
        return Some(Box(f, x, y, Some(RangeAt(s, i, rnd)), None));
      }
      var z, m := None, None;
      if f.z {
        z := Some(RangeAt(s, i, rnd));
        i := i + 8;
      }
      if f.m {
        m := Some(RangeAt(s, i, rnd));
      }
      return Some(Box(f, x, y, z, m));
    }
    return None;
  }

  /** rtgeom_from_gserialized, before a missing box is computed. */
  method FromSerialized(s: seq<Byte>, rnd: Rounding) returns (r: Result<Decoded>)
    ensures r == Decode(s, rnd)
  {
    hide FlagsOf, BoxAt, SridOf, ReadGeom;
    if |s| < 8 {
      return Err(Truncated);
    }
    var srid := SridOf(s[4..7]);
    var flags := FlagsOf(s[7]);
    var dataPtr := 8;
    if flags.box {
      dataPtr := dataPtr + GboxSize(flags);
    }
    var g := GeomFromBuffer(s, dataPtr, flags);
    if g.Err? {
      return Err(g.error);
    }
    var box := ReadGbox(s, rnd);
    return Ok(Decoded(g.value.value, srid, box));
  }
}
