/** What a geohash stands for, in closed form: the column and the row of a grid over the
    world (the promises of geohash_point and decode_geohash_bbox in src/rtalgorithm.c). */
module Grid {
  import opened Convex
  import opened Geohash

  function Pow2(k: nat): (p: nat)
    ensures p > 0
  {
    if k == 0 then 1 else 2 * Pow2(k - 1)
  }

  /** The column of a longitude among 2^a, the last one closed. */
  function Column(lon: real, a: nat): int {
    if lon >= 180.0 then Pow2(a) - 1 else ((lon + 180.0) * Pow2(a) as real / 360.0).Floor
  }

  /** The row of a latitude among 2^b, the last one closed. */
  function Row(lat: real, b: nat): int {
    if lat >= 90.0 then Pow2(b) - 1 else ((lat + 90.0) * Pow2(b) as real / 180.0).Floor
  }

  // ---- The numbers spelled by turns ----

  function Doubled(i: int, b: bool): int { 2 * i + if b then 1 else 0 }

  /** The number spelled by the bits 0, 2, 4 and so on. */
  function EastNumber(bits: seq<bool>): int {
    if bits == [] then 0
    else
      var n := |bits| - 1;
      if n % 2 == 0 then Doubled(EastNumber(bits[..n]), bits[n]) else EastNumber(bits[..n])
  }

  /** The number spelled by the bits 1, 3, 5 and so on. */
  function NorthNumber(bits: seq<bool>): int {
    if bits == [] then 0
    else
      var n := |bits| - 1;
      if n % 2 == 1 then Doubled(NorthNumber(bits[..n]), bits[n]) else NorthNumber(bits[..n])
  }

  function Turns(n: nat): (nat, nat) { ((n + 1) / 2, n / 2) }

  /** A bound of the grid: i of 2^k equal steps over a range. */
  function Bound(start: real, range: real, i: int, k: nat): real { start + i as real * (range / Pow2(k) as real) }

  lemma HalfStep(start: real, range: real, i: int, k: nat)
    ensures Bound(start, range, 2 * i, k + 1) == Bound(start, range, i, k)
    ensures Bound(start, range, 2 * i + 1, k + 1) == (Bound(start, range, i, k) + Bound(start, range, i + 1, k)) / 2.0
    ensures Bound(start, range, 2 * i + 2, k + 1) == Bound(start, range, i + 1, k)
  {
    var w, h := range / Pow2(k) as real, range / Pow2(k + 1) as real;
    HalfWidth(range, Pow2(k) as real, w, h);
    StepScalar(i as real, w, h);
  }

  lemma HalfWidth(range: real, p: real, w: real, h: real)
    requires p > 0.0 && w == range / p && h == range / (2.0 * p)
    ensures w == 2.0 * h
  {
    assert w * p == range && h * (2.0 * p) == range;
    assert (w - 2.0 * h) * p == 0.0;
    NonZeroFactor(p, w - 2.0 * h);
  }

  lemma StepScalar(i: real, w: real, h: real)
    requires w == 2.0 * h
    ensures (2.0 * i) * h == i * w && (2.0 * i + 1.0) * h == i * w + h && (2.0 * i + 2.0) * h == (i + 1.0) * w == i * w + w
  {
  }

  /** The cell of a bit string: a column and a row of the grid. */
  lemma {:induction false} CellOfBits(bits: seq<bool>)
    ensures var ((a, b), i, j) := (Turns(|bits|), EastNumber(bits), NorthNumber(bits));
            Narrow(bits) == Cell(Bound(-180.0, 360.0, i, a), Bound(-180.0, 360.0, i + 1, a),
                                 Bound(-90.0, 180.0, j, b), Bound(-90.0, 180.0, j + 1, b))
  {
    hide Bound;
    if bits == [] {
      FirstBounds();
    } else {
      var n := |bits| - 1;
      var front := bits[..n];
      CellOfBits(front);
      var (a, b) := Turns(n);
      if n % 2 == 0 {
        HalfStep(-180.0, 360.0, EastNumber(front), a);
      } else {
        HalfStep(-90.0, 180.0, NorthNumber(front), b);
      }
    }
  }

  lemma FirstBounds()
    ensures Bound(-180.0, 360.0, 0, 0) == -180.0 && Bound(-180.0, 360.0, 1, 0) == 180.0
    ensures Bound(-90.0, 180.0, 0, 0) == -90.0 && Bound(-90.0, 180.0, 1, 0) == 90.0
  {
  }

  // ---- The column and row of a point ----

  /** Between two bounds of the grid, the lower one its own. */
  lemma StepOf(x: real, start: real, range: real, i: int, k: nat)
    requires range > 0.0 && Bound(start, range, i, k) <= x < Bound(start, range, i + 1, k)
    ensures ((x - start) * Pow2(k) as real / range).Floor == i
  {
    StepQuotient(x - start, range, Pow2(k) as real, i as real);
  }

  lemma StepQuotient(y: real, range: real, p: real, i: real)
    requires range > 0.0 && p > 0.0 && i * (range / p) <= y < (i + 1.0) * (range / p)
    ensures i <= y * p / range < i + 1.0
  {
    var w, q := range / p, y * p / range;
    assert w * p == range && q * range == y * p;
    SameQuotient(y, w, p, q, range);
    if q < i {
      var z := ProductPositive(i - q, w);
    }
    if q >= i + 1.0 {
      ProductNonNegative(q - (i + 1.0), w);
    }
  }

  lemma SameQuotient(y: real, w: real, p: real, q: real, range: real)
    requires p > 0.0 && w * p == range && q * range == y * p && range > 0.0
    ensures q * w == y && w > 0.0
  {
    assert (q * w - y) * p == q * (w * p) - y * p;
    NonZeroFactor(p, q * w - y);
    if w <= 0.0 {
      ProductNonNegative(-w, p);
    }
  }

  lemma LastStep(start: real, range: real, i: int, k: nat)
    requires range > 0.0 && Bound(start, range, i, k) == start + range
    ensures i == Pow2(k)
  {
    LastScalar(i as real, range, Pow2(k) as real);
  }

  lemma LastScalar(i: real, range: real, p: real)
    requires range > 0.0 && p > 0.0 && i * (range / p) == range
    ensures i == p
  {
    var w := range / p;
    assert w * p == range;
    assert (i - p) * w == 0.0;
    NonZeroFactor(w, i - p);
  }

  /** A point of the world is given the bits of its column and its row, by turns. */
  lemma NumbersOfPoint(lon: real, lat: real, n: nat)
    requires -180.0 <= lon <= 180.0 && -90.0 <= lat <= 90.0
    ensures var (a, b) := Turns(n);
            EastNumber(GeoBits(lon, lat, n)) == Column(lon, a) && NorthNumber(GeoBits(lon, lat, n)) == Row(lat, b)
  {
    hide GeoBits, Narrow, EastNumber, NorthNumber, Bound;
    var bits := GeoBits(lon, lat, n);
    var (a, b) := Turns(n);
    NarrowIsProper(bits);
    CellOfBits(bits);
    OwnedByItsBits(lon, lat, bits);
    var i, j := EastNumber(bits), NorthNumber(bits);
    OneStep(lon, -180.0, 360.0, i, a);
    OneStep(lat, -90.0, 180.0, j, b);
  }

  /** The step a value belongs to, the last one closed. */
  lemma OneStep(x: real, start: real, range: real, i: int, k: nat)
    requires range > 0.0 && start <= x <= start + range
    requires Bound(start, range, i, k) <= x
    requires Bound(start, range, i + 1, k) <= start + range
    requires x < Bound(start, range, i + 1, k) || (Bound(start, range, i + 1, k) == start + range == x)
    ensures i == if x >= start + range then Pow2(k) - 1 else ((x - start) * Pow2(k) as real / range).Floor
  {
    if x < start + range {
      StepOf(x, start, range, i, k);
    } else {
      LastStep(start, range, i + 1, k);
    }
  }

  // ---- The characters ----

  /** Bit k of a point: the last binary digit of its column, or row, at that depth. */
  predicate TurnBit(lon: real, lat: real, k: nat) {
    if k % 2 == 0 then Column(lon, k / 2 + 1) % 2 == 1 else Row(lat, k / 2 + 1) % 2 == 1
  }

  lemma BitsByTurns(lon: real, lat: real, n: nat, k: nat)
    requires -180.0 <= lon <= 180.0 && -90.0 <= lat <= 90.0 && k < n
    ensures GeoBits(lon, lat, n)[k] == TurnBit(lon, lat, k)
  {
    hide GeoBits, Column, Row;
    GeoBitsPrefix(lon, lat, k + 1, n);
    var bits := GeoBits(lon, lat, k + 1);
    NumbersOfPoint(lon, lat, k + 1);
    assert GeoBits(lon, lat, n)[..k + 1][k] == GeoBits(lon, lat, n)[k] == bits[k];
    LastDigit(bits);
  }

  lemma LastDigit(bits: seq<bool>)
    requires bits != []
    ensures var k := |bits| - 1;
            bits[k] <==> (if k % 2 == 0 then EastNumber(bits) else NorthNumber(bits)) % 2 == 1
  {
  }

  function Weight(b: bool, w: nat): nat { if b then w else 0 }

  /** The number of character c: five bits, the highest first. */
  function DigitOf(lon: real, lat: real, c: nat): (d: nat)
    ensures d < 32
  {
    Weight(TurnBit(lon, lat, 5*c), 16) + Weight(TurnBit(lon, lat, 5*c + 1), 8) + Weight(TurnBit(lon, lat, 5*c + 2), 4)
    + Weight(TurnBit(lon, lat, 5*c + 3), 2) + Weight(TurnBit(lon, lat, 5*c + 4), 1)
  }

  /** An upper-case letter is read as the lower-case one. */
  lemma CaseDoesNotMatter(v: nat, c: char)
    requires v < 32 && c == BASE32[v]
    ensures Find(ToLower(c), 0) == v
    ensures 'a' <= c <= 'z' ==> Find(ToLower((c as int - 32) as char), 0) == v
  {
    hide Find, ToLower;
    FindSpelled(v);
    AlphabetIsLower(v);
    if 'a' <= c <= 'z' {
      LowerOfUpper(c);
    }
  }

  lemma LowerOfUpper(c: char)
    requires 'a' <= c <= 'z'
    ensures ToLower((c as int - 32) as char) == c
  {
  }

  predicate GeohashCharacter(c: char) {
    ('0' <= c <= '9' || 'a' <= c <= 'z') && c != 'a' && c != 'i' && c != 'l' && c != 'o'
  }

  lemma DigitIsCharacter(i: nat)
    requires i < 32
    ensures GeohashCharacter(BASE32[i])
  {
  }

  /** The alphabet: digits and lower-case letters in ascending order, without a, i, l, o. */
  lemma Alphabet()
    ensures |BASE32| == 32 && forall i, j :: 0 <= i < j < 32 ==> BASE32[i] < BASE32[j]
    ensures forall c :: c in BASE32 <==> ('0' <= c <= '9' || 'a' <= c <= 'z') && c != 'a' && c != 'i' && c != 'l' && c != 'o'
  {
    hide GeohashCharacter;
    forall i, j | 0 <= i < j < 32
      ensures BASE32[i] < BASE32[j]
    {
      AlphabetDistinct(i, j);
    }
    forall c
      ensures c in BASE32 <==> GeohashCharacter(c)
    {
      if c in BASE32 {
        var i :| 0 <= i < |BASE32| && BASE32[i] == c;
        DigitIsCharacter(i);
      } else if GeohashCharacter(c) {
        Listed(c);
      }
    }
    CharactersAre();
  }

  lemma CharactersAre()
    ensures forall c :: GeohashCharacter(c) <==> ('0' <= c <= '9' || 'a' <= c <= 'z') && c != 'a' && c != 'i' && c != 'l' && c != 'o'
  {
  }

  lemma Listed(c: char)
    requires GeohashCharacter(c)
    ensures c in BASE32
  {
    var i := if c <= '9' then c as int - '0' as int
             else if c <= 'h' then c as int - 'b' as int + 10
             else if c <= 'k' then c as int - 'j' as int + 17
             else if c <= 'n' then c as int - 'm' as int + 19
             else c as int - 'p' as int + 21;
    assert 0 <= i < 32;
    assert BASE32[i] == c;
  }

  /** The hash of a point and the cell decoded from it: the characters spell the binary
      digits of column and row by turns, and the cell is that column and that row. */
  method HashAndCell(lon: real, lat: real, precision: nat) returns (geohash: string, cell: Cell)
    requires -180.0 <= lon <= 180.0 && -90.0 <= lat <= 90.0
    ensures |geohash| == precision && forall c :: 0 <= c < precision ==> geohash[c] == BASE32[DigitOf(lon, lat, c)]
    ensures var (a, b) := ((5*precision + 1) / 2, 5*precision / 2);
            && cell.lonmin == Bound(-180.0, 360.0, Column(lon, a), a)
            && cell.lonmax == Bound(-180.0, 360.0, Column(lon, a) + 1, a)
            && cell.latmin == Bound(-90.0, 180.0, Row(lat, b), b)
            && cell.latmax == Bound(-90.0, 180.0, Row(lat, b) + 1, b)
  {
    hide GeoBits, Narrow, Spell, Bound, Column, Row, DigitOf, EastNumber, NorthNumber;
    var decoded;
    geohash, decoded := EncodeDecode(lon, lat, precision);
    cell := decoded.cell;
    CellOfBits(GeoBits(lon, lat, 5*precision));
    NumbersOfPoint(lon, lat, 5*precision);
    forall c | 0 <= c < precision
      ensures geohash[c] == BASE32[DigitOf(lon, lat, c)]
    {
      CharacterOf(lon, lat, precision, c);
    }
  }

  lemma CharacterOf(lon: real, lat: real, precision: nat, c: nat)
    requires -180.0 <= lon <= 180.0 && -90.0 <= lat <= 90.0 && c < precision
    ensures Spell(GeoBits(lon, lat, 5*precision))[c] == BASE32[DigitOf(lon, lat, c)]
  {
    hide GeoBits, TurnBit, Value;
    var bits := GeoBits(lon, lat, 5*precision);
    var g := Group(bits, c);
    ValueBits(g);
    ValueOfFive(g);
    BitsByTurns(lon, lat, 5*precision, 5*c);
    BitsByTurns(lon, lat, 5*precision, 5*c + 1);
    BitsByTurns(lon, lat, 5*precision, 5*c + 2);
    BitsByTurns(lon, lat, 5*precision, 5*c + 3);
    BitsByTurns(lon, lat, 5*precision, 5*c + 4);
  }

  /** The cell decoded from any string of geohash characters. */
  method CellOfString(geohash: string) returns (r: Decoded)
    ensures r.Box? <==> Spellable(geohash)
    ensures r.Box? ==>
              var (bits, n) := (Bits(geohash), 5*|geohash|);
              var (a, b) := ((n + 1) / 2, n / 2);
              && r.cell.lonmin == Bound(-180.0, 360.0, EastNumber(bits), a)
              && r.cell.lonmax == Bound(-180.0, 360.0, EastNumber(bits) + 1, a)
              && r.cell.latmin == Bound(-90.0, 180.0, NorthNumber(bits), b)
              && r.cell.latmax == Bound(-90.0, 180.0, NorthNumber(bits) + 1, b)
  {
    hide Bits, Narrow, Bound, EastNumber, NorthNumber;
    r := DecodeGeohashBbox(geohash, -1);
    assert geohash[..|geohash|] == geohash;
    CellOfBits(Bits(geohash));
  }
}
