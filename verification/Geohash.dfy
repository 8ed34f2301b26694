/** Geohash encoding, decoding and precision, src/rtalgorithm.c. */
module Geohash {
  import opened Convex

  const BASE32 := "0123456789bcdefghjkmnpqrstuvwxyz"

  /** Mask of the j-th bit of a character. */
  const BITS: seq<int> := [16, 8, 4, 2, 1]

  // ---- Cells and bits ----

  datatype Cell = Cell(lonmin: real, lonmax: real, latmin: real, latmax: real)

  const WORLD := Cell(-180.0, 180.0, -90.0, 90.0)

  predicate Holds(c: Cell, lon: real, lat: real) {
    c.lonmin <= lon <= c.lonmax && c.latmin <= lat <= c.latmax
  }

  /** The half of a cell a bit chooses; even bits cut the longitude. */
  function Half(c: Cell, even: bool, b: bool): Cell {
    var lon, lat := (c.lonmin + c.lonmax) / 2.0, (c.latmin + c.latmax) / 2.0;
    if even then (if b then c.(lonmin := lon) else c.(lonmax := lon))
    else (if b then c.(latmin := lat) else c.(latmax := lat))
  }

  /** The bit a point asks for in a cell. */
  function Bit(c: Cell, even: bool, lon: real, lat: real): bool {
    if even then lon >= (c.lonmin + c.lonmax) / 2.0 else lat >= (c.latmin + c.latmax) / 2.0
  }

  /** The bits take turns, beginning with the longitude. */
  predicate CutsLongitude(n: nat) { n % 2 == 0 }

  lemma StartsWithLongitude()
    ensures CutsLongitude(0)
  {
  }

  lemma TakeTurns(n: nat)
    ensures CutsLongitude(n + 1) <==> !CutsLongitude(n)
  {
  }

  /** The cell a bit string narrows the world to. */
  function Narrow(bits: seq<bool>): Cell {
    if bits == [] then WORLD
    else Half(Narrow(bits[..|bits| - 1]), (|bits| - 1) % 2 == 0, bits[|bits| - 1])
  }

  /** The first n bits of a point. */
  function GeoBits(lon: real, lat: real, n: nat): (bits: seq<bool>)
    ensures |bits| == n
  {
    if n == 0 then []
    else
      var p := GeoBits(lon, lat, n - 1);
      p + [Bit(Narrow(p), (n - 1) % 2 == 0, lon, lat)]
  }

  lemma GeoBitsStep(lon: real, lat: real, n: nat)
    ensures GeoBits(lon, lat, n + 1) == GeoBits(lon, lat, n) + [Bit(Narrow(GeoBits(lon, lat, n)), n % 2 == 0, lon, lat)]
    ensures Narrow(GeoBits(lon, lat, n + 1))
            == Half(Narrow(GeoBits(lon, lat, n)), n % 2 == 0, GeoBits(lon, lat, n + 1)[n])
  {
    var p := GeoBits(lon, lat, n);
    assert GeoBits(lon, lat, n + 1)[..n] == p;
  }

  lemma {:induction false} GeoBitsPrefix(lon: real, lat: real, k: nat, n: nat)
    requires k <= n
    ensures GeoBits(lon, lat, n)[..k] == GeoBits(lon, lat, k)
  {
    hide GeoBits;
    if k < n {
      GeoBitsPrefix(lon, lat, k, n - 1);
      GeoBitsInit(lon, lat, n);
      PrefixOfPrefix(GeoBits(lon, lat, n), k, n - 1);
    }
  }

  lemma GeoBitsInit(lon: real, lat: real, n: nat)
    requires n > 0
    ensures GeoBits(lon, lat, n)[..n-1] == GeoBits(lon, lat, n - 1)
  {
  }

  lemma PrefixOfPrefix<T>(s: seq<T>, k: nat, m: nat)
    requires k <= m <= |s|
    ensures s[..k] == s[..m][..k]
  {
  }

  /** A point of the world stays in its cell at every precision. */
  lemma {:induction false} PointInCell(lon: real, lat: real, n: nat)
    requires Holds(WORLD, lon, lat)
    ensures Holds(Narrow(GeoBits(lon, lat, n)), lon, lat)
  {
    if n > 0 {
      PointInCell(lon, lat, n - 1);
      GeoBitsStep(lon, lat, n - 1);
    }
  }

  /** The part of a cell that is its own: the upper edges belong to the next cell, but at
      the edge of the world. */
  predicate Owns(c: Cell, lon: real, lat: real) {
    && c.lonmin <= lon && (lon < c.lonmax || (c.lonmax == WORLD.lonmax && lon == c.lonmax))
    && c.latmin <= lat && (lat < c.latmax || (c.latmax == WORLD.latmax && lat == c.latmax))
  }

  lemma {:induction false} NarrowIsProper(bits: seq<bool>)
    ensures var c := Narrow(bits);
            c.lonmin < c.lonmax <= WORLD.lonmax && c.latmin < c.latmax <= WORLD.latmax
  {
    if bits != [] {
      NarrowIsProper(bits[..|bits| - 1]);
    }
  }

  /** The cells of any one length divide the world: a point has exactly the bits whose cell
      owns it. */
  lemma {:induction false} OwnedByItsBits(lon: real, lat: real, bits: seq<bool>)
    requires Holds(WORLD, lon, lat)
    ensures GeoBits(lon, lat, |bits|) == bits <==> Owns(Narrow(bits), lon, lat)
  {
    hide Owns, Half, Bit;
    if bits == [] {
      OwnsWorld(lon, lat);
    }
    if bits != [] {
      var n := |bits| - 1;
      var p, b := bits[..n], bits[n];
      OwnedByItsBits(lon, lat, p);
      NarrowIsProper(p);
      assert bits == p + [b];
      var c, even := Narrow(p), n % 2 == 0;
      OwnsHalf(c, even, b, lon, lat);
      var q := GeoBits(lon, lat, n);
      SameAppend(q, Bit(Narrow(q), even, lon, lat), p, b);
    }
  }

  lemma OwnsWorld(lon: real, lat: real)
    requires Holds(WORLD, lon, lat)
    ensures Owns(WORLD, lon, lat)
  {
  }

  lemma OwnsHalf(c: Cell, even: bool, b: bool, lon: real, lat: real)
    requires c.lonmin < c.lonmax <= WORLD.lonmax && c.latmin < c.latmax <= WORLD.latmax
    ensures Owns(Half(c, even, b), lon, lat) <==> Owns(c, lon, lat) && Bit(c, even, lon, lat) == b
  {
  }

  lemma SameAppend(q: seq<bool>, d: bool, p: seq<bool>, b: bool)
    requires |q| == |p|
    ensures q + [d] == p + [b] <==> q == p && d == b
  {
    if q + [d] == p + [b] {
      assert q == (q + [d])[..|q|] == p && d == (q + [d])[|q|] == b;
    }
  }

  // ---- Characters ----

  /** The number spelled by up to five bits, leading bit first. */
  function Value(bits: seq<bool>): int
    requires |bits| <= 5
  {
    if bits == [] then 0
    else Value(bits[..|bits| - 1]) + (if bits[|bits| - 1] then BITS[|bits| - 1] else 0)
  }

  /** Bit j of a five-bit number. */
  predicate BitOf(v: int, j: int)
    requires 0 <= j < 5
  {
    (v / BITS[j]) % 2 == 1
  }

  lemma ValueOfFive(bits: seq<bool>)
    requires |bits| == 5
    ensures Value(bits) == (if bits[0] then 16 else 0) + (if bits[1] then 8 else 0) + (if bits[2] then 4 else 0)
                           + (if bits[3] then 2 else 0) + (if bits[4] then 1 else 0)
  {
    var b4, b3, b2, b1 := bits[..4], bits[..3], bits[..2], bits[..1];
    assert b4[..3] == b3 && b3[..2] == b2 && b2[..1] == b1 && b1[..0] == [];
    assert Value(b1) == if bits[0] then 16 else 0;
    assert Value(b2) == Value(b1) + if bits[1] then 8 else 0;
    assert Value(b3) == Value(b2) + if bits[2] then 4 else 0;
    assert Value(b4) == Value(b3) + if bits[3] then 2 else 0;
  }

  lemma ValueBits(bits: seq<bool>)
    requires |bits| == 5
    ensures 0 <= Value(bits) < 32
    ensures forall j :: 0 <= j < 5 ==> (BitOf(Value(bits), j) <==> bits[j])
  {
    ValueOfFive(bits);
    forall j | 0 <= j < 5
      ensures BitOf(Value(bits), j) <==> bits[j]
    {
      assert j == 0 || j == 1 || j == 2 || j == 3 || j == 4;
    }
  }

  /** Five consecutive bits. */
  function Group(bits: seq<bool>, k: nat): (g: seq<bool>)
    requires 5*k + 5 <= |bits|
    ensures |g| == 5
  {
    bits[5*k..5*k+5]
  }

  /** The characters of a bit string, five bits each. */
  function Spell(bits: seq<bool>): (s: string)
    ensures |s| == |bits| / 5
  {
    seq(|bits| / 5, k requires 0 <= k < |bits| / 5 =>
      ValueBits(Group(bits, k));
      BASE32[Value(Group(bits, k))])
  }

  /** strchr(base32, c) - base32, or -1 when the character is not there. */
  function Find(c: char, k: nat): (r: int)
    requires k <= 32
    ensures r == -1 || (k <= r < 32 && BASE32[r] == c)
    ensures r == -1 <==> forall j :: k <= j < 32 ==> BASE32[j] != c
    decreases 32 - k
  {
    if k == 32 then -1 else if BASE32[k] == c then k else Find(c, k + 1)
  }

  function ToLower(c: char): char {
    if 'A' <= c <= 'Z' then (c as int + 32) as char else c
  }

  lemma AlphabetRises(i: nat)
    requires i < 31
    ensures BASE32[i] < BASE32[i + 1]
  {
  }

  lemma {:induction false} AlphabetDistinct(i: nat, j: nat)
    requires i < j < 32
    ensures BASE32[i] < BASE32[j]
    decreases j
  {
    AlphabetRises(j - 1);
    if i < j - 1 {
      AlphabetDistinct(i, j - 1);
    }
  }

  lemma AlphabetIsLower(v: nat)
    requires v < 32
    ensures ToLower(BASE32[v]) == BASE32[v]
  {
  }

  /** Every character spells the number it was chosen for. */
  lemma FindSpelled(v: int)
    requires 0 <= v < 32
    ensures Find(ToLower(BASE32[v]), 0) == v
  {
    AlphabetIsLower(v);
    var r := Find(BASE32[v], 0);
    if r < v {
      AlphabetDistinct(r, v);
    } else if v < r {
      AlphabetDistinct(v, r);
    }
  }

  /** Strings of geohash characters. */
  predicate Spellable(s: string) {
    forall i :: 0 <= i < |s| ==> Find(ToLower(s[i]), 0) != -1
  }

  /** The bits a geohash string stands for. */
  function Bits(s: string): (bits: seq<bool>)
    ensures |bits| == 5*|s|
  {
    seq(5*|s|, k requires 0 <= k < 5*|s| => BitOf(Find(ToLower(s[k / 5]), 0), k % 5))
  }

  lemma GroupBit(bits: seq<bool>, k: nat)
    requires |bits| % 5 == 0 && k < |bits|
    ensures 5*(k / 5) + 5 <= |bits| && Group(bits, k / 5)[k % 5] == bits[k]
  {
  }

  /** Decoding undoes spelling. */
  lemma SpellRoundTrip(bits: seq<bool>)
    requires |bits| % 5 == 0
    ensures Spellable(Spell(bits)) && Bits(Spell(bits)) == bits
  {
    hide Find, BitOf, ToLower, Group;
    var s := Spell(bits);
    forall i | 0 <= i < |s|
      ensures Find(ToLower(s[i]), 0) == Value(Group(bits, i)) != -1
    {
      ValueBits(Group(bits, i));
      FindSpelled(Value(Group(bits, i)));
    }
    forall k | 0 <= k < |bits|
      ensures Bits(s)[k] == bits[k]
    {
      ValueBits(Group(bits, k / 5));
      GroupBit(bits, k);
    }
  }

  /** Distinct bit strings are spelled differently. */
  lemma SpellInjective(bits: seq<bool>, bits': seq<bool>)
    requires |bits| % 5 == 0 && |bits'| % 5 == 0 && Spell(bits) == Spell(bits')
    ensures bits == bits'
  {
    SpellRoundTrip(bits);
    SpellRoundTrip(bits');
  }

  // ---- The algorithms ----

  lemma ValueStep(bits: seq<bool>, b: bool)
    requires |bits| < 5
    ensures Value(bits + [b]) == Value(bits) + if b then BITS[|bits|] else 0
  {
    assert (bits + [b])[..|bits|] == bits;
  }

  /** The first n bits of a point, from bit `start` on. */
  function Tail(lon: real, lat: real, start: nat, n: nat): (t: seq<bool>)
    requires start <= n
    ensures |t| == n - start
  {
    GeoBits(lon, lat, n)[start..]
  }

  /** One more bit: the cell is halved and the character under construction grows. */
  lemma BitStep(lon: real, lat: real, start: nat, n: nat)
    requires start <= n < start + 5
    ensures var (c, even) := (Narrow(GeoBits(lon, lat, n)), CutsLongitude(n));
            var b := Bit(c, even, lon, lat);
            && Narrow(GeoBits(lon, lat, n + 1)) == Half(c, even, b)
            && Value(Tail(lon, lat, start, n + 1)) == Value(Tail(lon, lat, start, n)) + if b then BITS[n - start] else 0
  {
    GeoBitsStep(lon, lat, n);
    var b := GeoBits(lon, lat, n + 1)[n];
    assert Tail(lon, lat, start, n + 1) == Tail(lon, lat, start, n) + [b];
    ValueStep(Tail(lon, lat, start, n), b);
  }

  lemma CharacterDone(lon: real, lat: real, i: nat, precision: nat)
    requires i < precision
    ensures var all := Spell(GeoBits(lon, lat, 5*precision));
            var v := Value(Tail(lon, lat, 5*i, 5*i + 5));
            0 <= v < 32 && BASE32[v] == all[i] && all[..i] + [all[i]] == all[..i+1]
  {
    GeoBitsPrefix(lon, lat, 5*i + 5, 5*precision);
    assert Tail(lon, lat, 5*i, 5*i + 5) == Group(GeoBits(lon, lat, 5*precision), i);
    ValueBits(Tail(lon, lat, 5*i, 5*i + 5));
  }

  lemma NoBits(lon: real, lat: real, start: nat)
    ensures Value(Tail(lon, lat, start, start)) == 0 && GeoBits(lon, lat, 0) == [] && Narrow([]) == WORLD
  {
  }

  lemma HalvedLongitude(c: Cell, lon: real, lat: real, lo: real, hi: real, upper: bool)
    requires var mid := (c.lonmin + c.lonmax) / 2.0;
             upper == (lon >= mid) && (lo, hi) == if upper then (mid, c.lonmax) else (c.lonmin, mid)
    ensures Bit(c, true, lon, lat) == upper && Half(c, true, upper) == Cell(lo, hi, c.latmin, c.latmax)
  {
  }

  lemma HalvedLatitude(c: Cell, lon: real, lat: real, lo: real, hi: real, upper: bool)
    requires var mid := (c.latmin + c.latmax) / 2.0;
             upper == (lat >= mid) && (lo, hi) == if upper then (mid, c.latmax) else (c.latmin, mid)
    ensures Bit(c, false, lon, lat) == upper && Half(c, false, upper) == Cell(c.lonmin, c.lonmax, lo, hi)
  {
  }

  /** Keeps the half of an interval that holds a value. */
  method HalveInterval(lo0: real, hi0: real, v: real) returns (lo: real, hi: real, upper: bool)
    ensures lo0 <= v <= hi0 ==> lo <= v <= hi
    ensures lo0 <= hi0 ==> lo0 <= lo <= hi <= hi0 && hi - lo == (hi0 - lo0) / 2.0
    ensures upper == (v >= (lo0 + hi0) / 2.0)
    ensures (lo, hi) == if upper then ((lo0 + hi0) / 2.0, hi0) else (lo0, (lo0 + hi0) / 2.0)
  {
    lo, hi := lo0, hi0;
    var mid := (lo + hi) / 2.0;
    upper := v >= mid;
    if upper {
      lo := mid;
    } else {
      hi := mid;
    }
  }

  /** geohash_point. */
  method GeohashPoint(longitude: real, latitude: real, precision: nat) returns (geohash: string)
    ensures geohash == Spell(GeoBits(longitude, latitude, 5*precision))
  {
    hide Narrow, Value, Tail, GeoBits, Group, Spell, Half, Bit, CutsLongitude;
    StartsWithLongitude();
    ghost var all := Spell(GeoBits(longitude, latitude, 5*precision));
    var isEven, i := true, 0;
    var lat0, lat1, lon0, lon1 := -90.0, 90.0, -180.0, 180.0;
    var bit, ch := 0, 0;
    geohash := "";
    NoBits(longitude, latitude, 0);
    ghost var start, n := 0, 0;
    while i < precision
      invariant 0 <= i <= precision && 0 <= bit < 5 && (i == precision ==> bit == 0)
      invariant start == 5*i && n == start + bit && (isEven <==> CutsLongitude(n))
      invariant Cell(lon0, lon1, lat0, lat1) == Narrow(GeoBits(longitude, latitude, n))
      invariant geohash == all[..i]
      invariant ch == Value(Tail(longitude, latitude, start, n))
      decreases precision - i, 5 - bit
    {
      BitStep(longitude, latitude, start, n);
      TakeTurns(n);
      ghost var cell := Cell(lon0, lon1, lat0, lat1);
      var upper;
      if isEven {
        lon0, lon1, upper := HalveInterval(lon0, lon1, longitude);
        HalvedLongitude(cell, longitude, latitude, lon0, lon1, upper);
      } else {
        lat0, lat1, upper := HalveInterval(lat0, lat1, latitude);
        HalvedLatitude(cell, longitude, latitude, lat0, lat1, upper);
      }
      if upper {
        ch := ch + BITS[bit];
      }
      isEven := !isEven;
      n := n + 1;
      if bit < 4 {
        bit := bit + 1;
      } else {
        CharacterDone(longitude, latitude, i, precision);
        geohash := geohash + [BASE32[ch]];
        i := i + 1;
        bit := 0;
        ch := 0;
        start := n;
        NoBits(longitude, latitude, start);
      }
    }
    assert all[..precision] == all;
  }

  datatype Decoded = Box(cell: Cell) | BadCharacter

  lemma NarrowStep(bits: seq<bool>, k: nat)
    requires k < |bits|
    ensures Narrow(bits[..k+1]) == Half(Narrow(bits[..k]), CutsLongitude(k), bits[k])
  {
    assert bits[..k+1][..k] == bits[..k];
  }

  lemma BitOfString(s: string, i: nat, j: nat)
    requires i < |s| && j < 5
    ensures Bits(s)[5*i + j] == BitOf(Find(ToLower(s[i]), 0), j)
  {
    assert (5*i + j) / 5 == i && (5*i + j) % 5 == j;
  }

  /** The five bits of one character, each halving the cell. */
  method DecodeCharacter(cd: int, lat0': real, lat1': real, lon0': real, lon1': real, isEven': bool,
                         ghost bits: seq<bool>, ghost k0: nat)
    returns (lat0: real, lat1: real, lon0: real, lon1: real, isEven: bool)
    requires 0 <= cd < 32 && k0 + 5 <= |bits| && (isEven' <==> CutsLongitude(k0))
    requires forall j :: 0 <= j < 5 ==> bits[k0 + j] == BitOf(cd, j)
    requires Cell(lon0', lon1', lat0', lat1') == Narrow(bits[..k0])
    ensures isEven <==> CutsLongitude(k0 + 5)
    ensures Cell(lon0, lon1, lat0, lat1) == Narrow(bits[..k0 + 5])
  {
    hide Narrow, BitOf, CutsLongitude;
    lat0, lat1, lon0, lon1, isEven := lat0', lat1', lon0', lon1', isEven';
    for j := 0 to 5
      invariant isEven <==> CutsLongitude(k0 + j)
      invariant Cell(lon0, lon1, lat0, lat1) == Narrow(bits[..k0 + j])
    {
      NarrowStep(bits, k0 + j);
      TakeTurns(k0 + j);
      if isEven {
        var mid := (lon0 + lon1) / 2.0;
        if BitOf(cd, j) { lon0 := mid; } else { lon1 := mid; }
      } else {
        var mid := (lat0 + lat1) / 2.0;
        if BitOf(cd, j) { lat0 := mid; } else { lat1 := mid; }
      }
      isEven := !isEven;
    }
  }

  /** decode_geohash_bbox; a character outside the alphabet, on which the source would
      compute with a null pointer, is reported instead. */
  method DecodeGeohashBbox(geohash: string, precision: int) returns (r: Decoded)
    ensures var n := if precision < 0 || precision > |geohash| then |geohash| else precision;
            r == if Spellable(geohash[..n]) then Box(Narrow(Bits(geohash[..n]))) else BadCharacter
  {
    hide Narrow, Bits, BitOf, Find, ToLower, CutsLongitude;
    StartsWithLongitude();
    var n := if precision < 0 || precision > |geohash| then |geohash| else precision;
    ghost var used := geohash[..n];
    ghost var bits := Bits(used);
    var lat0, lat1, lon0, lon1 := -90.0, 90.0, -180.0, 180.0;
    var isEven := true;
    var i := 0;
    NoBits(0.0, 0.0, 0);
    assert bits[..0] == [];
    ghost var k := 0;
    while i < n
      invariant 0 <= i <= n && k == 5*i && (isEven <==> CutsLongitude(k))
      invariant forall m :: 0 <= m < i ==> Find(ToLower(used[m]), 0) != -1
      invariant Cell(lon0, lon1, lat0, lat1) == Narrow(bits[..k])
    {
      assert used[i] == geohash[i];
      var cd := Find(ToLower(geohash[i]), 0);
      if cd == -1 {
        return BadCharacter;
      }
      forall j | 0 <= j < 5
        ensures bits[k + j] == BitOf(cd, j)
      {
        BitOfString(used, i, j);
      }
      lat0, lat1, lon0, lon1, isEven := DecodeCharacter(cd, lat0, lat1, lon0, lon1, isEven, bits, k);
      k := k + 5;
      i := i + 1;
    }
    assert bits[..k] == bits;
    return Box(Cell(lon0, lon1, lat0, lat1));
  }

  /** Decoding an encoded point gives the cell the encoder ended in, which holds the point. */
  method EncodeDecode(lon: real, lat: real, precision: nat) returns (geohash: string, r: Decoded)
    requires Holds(WORLD, lon, lat)
    ensures |geohash| == precision && geohash == Spell(GeoBits(lon, lat, 5*precision))
    ensures r == Box(Narrow(GeoBits(lon, lat, 5*precision)))
    ensures r.Box? ==> Holds(r.cell, lon, lat)
  {
    geohash := GeohashPoint(lon, lat, precision);
    SpellRoundTrip(GeoBits(lon, lat, 5*precision));
    r := DecodeGeohashBbox(geohash, -1);
    assert geohash[..|geohash|] == geohash;
    PointInCell(lon, lat, 5*precision);
  }

  // ---- Precision of a box ----

  datatype GBox = GBox(xmin: real, xmax: real, ymin: real, ymax: real)

  predicate InBox(g: GBox, x: real, y: real) {
    g.xmin <= x <= g.xmax && g.ymin <= y <= g.ymax
  }

  /** A proper box inside the world. */
  predicate InWorld(g: GBox) {
    -180.0 <= g.xmin <= g.xmax <= 180.0 && -90.0 <= g.ymin <= g.ymax <= 90.0
  }

  /** Every point of the box starts with the same n bits, which narrow the world to c. */
  ghost predicate SharesBits(g: GBox, n: nat, c: Cell) {
    forall x, y :: InBox(g, x, y) ==>
      GeoBits(x, y, n) == GeoBits(g.xmin, g.ymin, n) && Narrow(GeoBits(x, y, n)) == c
  }

  /** A half of the cell that the whole box is strictly within is chosen by all its points. */
  lemma ShareBit(g: GBox, n: nat, c: Cell, b: bool)
    requires SharesBits(g, n, c) && g.xmin <= g.xmax && g.ymin <= g.ymax
    requires var (lo, hi) := if n % 2 == 0 then (c.lonmin, c.lonmax) else (c.latmin, c.latmax);
             var (gmin, gmax) := if n % 2 == 0 then (g.xmin, g.xmax) else (g.ymin, g.ymax);
             if b then gmin > (lo + hi) / 2.0 else gmax < (lo + hi) / 2.0
    ensures SharesBits(g, n + 1, Half(c, n % 2 == 0, b))
  {
    hide GeoBits, Narrow;
    assert InBox(g, g.xmin, g.ymin);
    GeoBitsStep(g.xmin, g.ymin, n);
    forall x, y | InBox(g, x, y)
      ensures GeoBits(x, y, n + 1) == GeoBits(g.xmin, g.ymin, n + 1)
      ensures Narrow(GeoBits(x, y, n + 1)) == Half(c, n % 2 == 0, b)
    {
      GeoBitsStep(x, y, n);
    }
  }

  /** How often the box still fits side by side into the cell. */
  function Fits(g: GBox, c: Cell): (n: int)
    requires g.xmin < g.xmax || g.ymin < g.ymax
  {
    if g.xmin < g.xmax then ((c.lonmax - c.lonmin) / (g.xmax - g.xmin)).Floor
    else ((c.latmax - c.latmin) / (g.ymax - g.ymin)).Floor
  }

  lemma HalvingFits(w: real, b: real)
    requires 0.0 < b <= w / 2.0
    ensures 0 <= (w / 2.0 / b).Floor < (w / b).Floor
  {
    var q, h := w / b, w / 2.0 / b;
    assert q*b == w && h*b == w / 2.0;
    assert (q - 2.0*h)*b == 0.0;
    assert q == 2.0*h by {
      assert q == w / b && 2.0*h == 2.0*(w / 2.0 / b);
    }
    assert h >= 1.0 by {
      if h < 1.0 {
        var z := ProductPositive(1.0 - h, b);
      }
    }
  }

  /** The box is strictly within one quarter of the cell. */
  predicate InQuarter(g: GBox, c: Cell) {
    var lon, lat := (c.lonmin + c.lonmax) / 2.0, (c.latmin + c.latmax) / 2.0;
    (g.xmin > lon || g.xmax < lon) && (g.ymin > lat || g.ymax < lat)
  }

  /** The least even number of bits after which the box is in no quarter of its cell. */
  ghost predicate LastQuarter(g: GBox, n: nat) {
    && n % 2 == 0 && !InQuarter(g, Narrow(GeoBits(g.xmin, g.ymin, n)))
    && forall k: nat :: k < n && k % 2 == 0 ==> InQuarter(g, Narrow(GeoBits(g.xmin, g.ymin, k)))
  }

  /** rtgeom_geohash_precision: the number of characters all points of the box share,
      with the bounds the search ended in.  The ghost result counts the bits. */
  method GeohashPrecision(bbox: GBox, bounds0: GBox) returns (precision: nat, bounds: GBox, ghost bits: nat)
    requires InWorld(bbox)
    ensures bbox.xmin == bbox.xmax && bbox.ymin == bbox.ymax ==> precision == 20 && bounds == bounds0
    ensures !(bbox.xmin == bbox.xmax && bbox.ymin == bbox.ymax) ==>
              precision == bits / 5 && LastQuarter(bbox, bits) && SharesBits(bbox, bits, Cell(bounds.xmin, bounds.xmax, bounds.ymin, bounds.ymax))
    ensures forall x, y :: InBox(bbox, x, y) ==>
              GeoBits(x, y, 5*precision) == GeoBits(bbox.xmin, bbox.ymin, 5*precision)
  {
    hide GeoBits, Narrow, SharesBits, InBox, InQuarter, Narrowed, LastQuarter;
    var minx, maxx, miny, maxy := bbox.xmin, bbox.xmax, bbox.ymin, bbox.ymax;
    bounds := bounds0;
    bits := 100;
    if minx == maxx && miny == maxy {
      OnePoint(bbox);
      return 20, bounds, bits;
    }
    var lonmin, latmin, lonmax, latmax := -180.0, -90.0, 180.0, 90.0;
    precision := 0;
    StartSharing(bbox);
    while true
      invariant Narrowed(bbox, precision, Cell(lonmin, lonmax, latmin, latmax))
      invariant lonmin <= minx && maxx <= lonmax && latmin <= miny && maxy <= latmax
      invariant lonmin < lonmax && latmin < latmax
      decreases Fits(bbox, Cell(lonmin, lonmax, latmin, latmax))
    {
      var lonwidth, latwidth := lonmax - lonmin, latmax - latmin;
      var latmaxadjust, lonmaxadjust, latminadjust, lonminadjust := 0.0, 0.0, 0.0, 0.0;
      if minx > lonmin + lonwidth / 2.0 {
        lonminadjust := lonwidth / 2.0;
      } else if maxx < lonmax - lonwidth / 2.0 {
        lonmaxadjust := -1.0 * lonwidth / 2.0;
      }
      if miny > latmin + latwidth / 2.0 {
        latminadjust := latwidth / 2.0;
      } else if maxy < latmax - latwidth / 2.0 {
        latmaxadjust := -1.0 * latwidth / 2.0;
      }
      QuarterMoves(bbox, Cell(lonmin, lonmax, latmin, latmax), lonwidth, latwidth,
                   lonminadjust, lonmaxadjust, latminadjust, latmaxadjust);
      if (lonminadjust != 0.0 || lonmaxadjust != 0.0) && (latminadjust != 0.0 || latmaxadjust != 0.0) {
        NarrowedStep(bbox, precision, Cell(lonmin, lonmax, latmin, latmax), lonminadjust != 0.0, latminadjust != 0.0);
        if minx < maxx {
          HalvingFits(lonwidth, maxx - minx);
        } else {
          HalvingFits(latwidth, maxy - miny);
        }
        latmin := latmin + latminadjust;
        lonmin := lonmin + lonminadjust;
        latmax := latmax + latmaxadjust;
        lonmax := lonmax + lonmaxadjust;
        precision := precision + 2;
      } else {
        break;
      }
    }
    bounds := GBox(lonmin, lonmax, latmin, latmax);
    bits := precision;
    NarrowedEnd(bbox, bits, Cell(lonmin, lonmax, latmin, latmax));
    precision := precision / 5;
  }

  /** Until now the box was in a quarter of every second cell, and it shares its bits. */
  ghost predicate Narrowed(g: GBox, n: nat, c: Cell) {
    && n % 2 == 0 && SharesBits(g, n, c)
    && forall k: nat :: k < n && k % 2 == 0 ==> InQuarter(g, Narrow(GeoBits(g.xmin, g.ymin, k)))
  }

  lemma NarrowedStep(g: GBox, n: nat, c: Cell, east: bool, north: bool)
    requires Narrowed(g, n, c) && InQuarter(g, c) && g.xmin <= g.xmax && g.ymin <= g.ymax
    requires var (w, h) := (c.lonmax - c.lonmin, c.latmax - c.latmin);
             && (if east then g.xmin > c.lonmin + w / 2.0 else g.xmax < c.lonmax - w / 2.0)
             && (if north then g.ymin > c.latmin + h / 2.0 else g.ymax < c.latmax - h / 2.0)
    ensures var (w, h) := (c.lonmax - c.lonmin, c.latmax - c.latmin);
            Narrowed(g, n + 2, Cell(if east then c.lonmin + w / 2.0 else c.lonmin,
                                    if east then c.lonmax else c.lonmax - w / 2.0,
                                    if north then c.latmin + h / 2.0 else c.latmin,
                                    if north then c.latmax else c.latmax - h / 2.0))
  {
    hide SharesBits, InQuarter, GeoBits, Narrow;
    SharedCell(g, n, c);
    ShareTwoBits(g, n, c, east, north);
  }

  lemma NarrowedEnd(g: GBox, n: nat, c: Cell)
    requires Narrowed(g, n, c) && !InQuarter(g, c) && g.xmin <= g.xmax && g.ymin <= g.ymax
    ensures LastQuarter(g, n) && SharesBits(g, n, c)
    ensures forall x, y :: InBox(g, x, y) ==> GeoBits(x, y, 5*(n / 5)) == GeoBits(g.xmin, g.ymin, 5*(n / 5))
  {
    hide SharesBits, InQuarter, GeoBits, Narrow;
    SharedCell(g, n, c);
    SharedPrefix(g, n, c);
  }

  lemma SharedCell(g: GBox, n: nat, c: Cell)
    requires SharesBits(g, n, c) && g.xmin <= g.xmax && g.ymin <= g.ymax
    ensures Narrow(GeoBits(g.xmin, g.ymin, n)) == c
  {
    hide GeoBits, Narrow;
    assert InBox(g, g.xmin, g.ymin);
  }

  /** The bounds move in both directions exactly when the box is in one quarter. */
  lemma QuarterMoves(g: GBox, c: Cell, w: real, h: real, west: real, east: real, south: real, north: real)
    requires c.lonmin < c.lonmax && c.latmin < c.latmax && w == c.lonmax - c.lonmin && h == c.latmax - c.latmin
    requires west == if g.xmin > c.lonmin + w / 2.0 then w / 2.0 else 0.0
    requires east == if !(g.xmin > c.lonmin + w / 2.0) && g.xmax < c.lonmax - w / 2.0 then -1.0 * w / 2.0 else 0.0
    requires south == if g.ymin > c.latmin + h / 2.0 then h / 2.0 else 0.0
    requires north == if !(g.ymin > c.latmin + h / 2.0) && g.ymax < c.latmax - h / 2.0 then -1.0 * h / 2.0 else 0.0
    ensures (west != 0.0 || east != 0.0) && (south != 0.0 || north != 0.0) <==> InQuarter(g, c)
  {
  }

  /** A quarter of the cell is chosen when the box is strictly within it. */
  lemma ShareTwoBits(g: GBox, n: nat, c: Cell, east: bool, north: bool)
    requires SharesBits(g, n, c) && n % 2 == 0 && g.xmin <= g.xmax && g.ymin <= g.ymax
    requires var (w, h) := (c.lonmax - c.lonmin, c.latmax - c.latmin);
             && (if east then g.xmin > c.lonmin + w / 2.0 else g.xmax < c.lonmax - w / 2.0)
             && (if north then g.ymin > c.latmin + h / 2.0 else g.ymax < c.latmax - h / 2.0)
    ensures var (w, h) := (c.lonmax - c.lonmin, c.latmax - c.latmin);
            SharesBits(g, n + 2, Cell(if east then c.lonmin + w / 2.0 else c.lonmin,
                                      if east then c.lonmax else c.lonmax - w / 2.0,
                                      if north then c.latmin + h / 2.0 else c.latmin,
                                      if north then c.latmax else c.latmax - h / 2.0))
  {
    hide SharesBits;
    ShareBit(g, n, c, east);
    ShareBit(g, n + 1, Half(c, true, east), north);
  }

  lemma SharedPrefix(g: GBox, n: nat, c: Cell)
    requires SharesBits(g, n, c)
    ensures forall x, y :: InBox(g, x, y) ==> GeoBits(x, y, 5*(n / 5)) == GeoBits(g.xmin, g.ymin, 5*(n / 5))
  {
    hide GeoBits, Narrow;
    var k := 5*(n / 5);
    forall x, y | InBox(g, x, y)
      ensures GeoBits(x, y, k) == GeoBits(g.xmin, g.ymin, k)
    {
      GeoBitsPrefix(x, y, k, n);
      GeoBitsPrefix(g.xmin, g.ymin, k, n);
    }
  }

  lemma OnePoint(g: GBox)
    requires g.xmin == g.xmax && g.ymin == g.ymax
    ensures forall x, y :: InBox(g, x, y) ==> x == g.xmin && y == g.ymin
  {
  }

  lemma StartSharing(g: GBox)
    ensures Narrowed(g, 0, WORLD)
  {
  }

  lemma CentreIsInside(g: GBox)
    requires InWorld(g)
    ensures var (x, y) := (g.xmin + (g.xmax - g.xmin) / 2.0, g.ymin + (g.ymax - g.ymin) / 2.0);
            InBox(g, x, y) && Holds(WORLD, x, y)
  {
  }

  lemma AllInCell(g: GBox, c: Cell, n: nat)
    requires InWorld(g) && c == Narrow(GeoBits(g.xmin, g.ymin, n))
    requires forall x, y :: InBox(g, x, y) ==> GeoBits(x, y, n) == GeoBits(g.xmin, g.ymin, n)
    ensures forall x, y :: InBox(g, x, y) ==> Holds(c, x, y)
  {
    hide GeoBits, Narrow;
    forall x, y | InBox(g, x, y)
      ensures Holds(c, x, y)
    {
      PointInCell(x, y, n);
    }
  }

  datatype HashResult = Hash(geohash: string) | NotInDegrees

  /** rtgeom_geohash on the box of a geometry: the hash of its centre.  With no precision
      asked for, every point of the box has that very hash and lies in its cell. */
  method GeohashOfBox(gbox: GBox, precision0: int) returns (r: HashResult, cell: Decoded)
    requires gbox.xmin <= gbox.xmax && gbox.ymin <= gbox.ymax
    ensures r.NotInDegrees? <==> !InWorld(gbox)
    ensures r.Hash? && precision0 > 0 ==> |r.geohash| == precision0
    ensures r.Hash? && precision0 <= 0 ==>
              if gbox.xmin == gbox.xmax && gbox.ymin == gbox.ymax then |r.geohash| == 20
              else exists n: nat :: LastQuarter(gbox, n) && |r.geohash| == n / 5
    ensures r.Hash? ==> r.geohash == Spell(GeoBits(gbox.xmin + (gbox.xmax - gbox.xmin) / 2.0,
                                                   gbox.ymin + (gbox.ymax - gbox.ymin) / 2.0, 5*|r.geohash|))
    ensures r.Hash? && precision0 <= 0 ==>
              forall x, y :: InBox(gbox, x, y) ==> r.geohash == Spell(GeoBits(x, y, 5*|r.geohash|))
    ensures r.Hash? ==> Spellable(r.geohash) && cell == Box(Narrow(Bits(r.geohash)))
    ensures r.Hash? && precision0 <= 0 ==> forall x, y :: InBox(gbox, x, y) ==> Holds(cell.cell, x, y)
  {
    hide GeoBits, Narrow, Spell, LastQuarter, InBox, Holds, SharesBits, Spellable, Bits;
    cell := BadCharacter;
    if gbox.xmin < -180.0 || gbox.ymin < -90.0 || gbox.xmax > 180.0 || gbox.ymax > 90.0 {
      return NotInDegrees, cell;
    }
    var lon := gbox.xmin + (gbox.xmax - gbox.xmin) / 2.0;
    var lat := gbox.ymin + (gbox.ymax - gbox.ymin) / 2.0;
    CentreIsInside(gbox);
    var precision := precision0;
    if precision <= 0 {
      var bounds;
      ghost var bits;
      precision, bounds, bits := GeohashPrecision(gbox, gbox);
    }
    var geohash;
    geohash, cell := EncodeDecode(lon, lat, precision);
    SpellRoundTrip(GeoBits(lon, lat, 5*precision));
    if precision0 <= 0 {
      AllInCell(gbox, cell.cell, 5*precision);
    }
    return Hash(geohash), cell;
  }
}
