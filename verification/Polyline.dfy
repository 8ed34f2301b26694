/** The encoded polyline of a point array (src/rtout_encoded_polyline.c).

    Coordinates are scaled and rounded, every one after the first point is
    replaced by its difference from the one before, the sign moves into the
    lowest bit, and the number is written in groups of five bits as printable
    characters. The repository has no reader for the format: Decode below is the
    independent definition that the writer is proved against. */
module Polyline {
  import opened Planar

  // ---- C's int ------------------------------------------------------------

  const TWO_30 := 0x4000_0000
  const TWO_31 := 0x8000_0000
  const TWO_32 := 0x1_0000_0000

  predicate IsInt(v: int) {
    -TWO_31 <= v < TWO_31
  }

  type Int32 = v: int | IsInt(v)

  /** Two's complement: what is left of v in 32 bits. */
  function Wrap(v: int): (w: Int32)
    ensures (v - w) % TWO_32 == 0
    ensures IsInt(v) ==> w == v
  {
    (v + TWO_31) % TWO_32 - TWO_31
  }

  /** Conversion of a double holding a whole number; `unfit` is whatever the
      machine leaves behind when the number does not fit. */
  function ToInt(v: int, unfit: Int32): Int32 {
    if IsInt(v) then v else unfit
  }

  /** round(): to the nearest integer, halves away from zero. */
  function Round(x: real): int {
    if x >= 0.0 then (x + 0.5).Floor else -(0.5 - x).Floor
  }

  lemma RoundIsNearest(x: real)
    ensures -0.5 <= x - Round(x) as real <= 0.5
    ensures Round(-x) == -Round(x)
  {
  }

  /** pow(10, precision) */
  function Scale(precision: int): (s: real)
    ensures s > 0.0
    decreases if precision < 0 then -precision else precision
  {
    if precision == 0 then 1.0
    else if precision > 0 then 10.0 * Scale(precision - 1)
    else Scale(precision + 1) / 10.0
  }

  /** One power of ten for every digit asked for, in both directions. */
  lemma ScaleIsPowerOfTen(precision: int)
    ensures Scale(0) == 1.0 && Scale(precision + 1) == 10.0 * Scale(precision)
  {
    if precision < 0 {
      assert Scale(precision) == Scale(precision + 1) / 10.0;
    }
  }

  // ---- numbers of a line ---------------------------------------------------

  /** Ordinate k of a line: y before x, point after point. */
  function Ordinate(line: seq<Point2D>, k: nat): real
    requires k < 2 * |line|
  {
    if k % 2 == 0 then line[k / 2].y else line[k / 2].x
  }

  function Snap(v: real, scale: real): int {
    Round(v * scale)
  }

  /** All ordinates, scaled and rounded. */
  function Rounded(line: seq<Point2D>, scale: real): (r: seq<int>)
    ensures |r| == 2 * |line|
  {
    seq(2 * |line|, k requires 0 <= k < 2 * |line| => Snap(Ordinate(line, k), scale))
  }

  /** Entry k is measured from the same ordinate of the point before. */
  function Deltas(r: seq<int>): (d: seq<int>)
    ensures |d| == |r|
  {
    seq(|r|, k requires 0 <= k < |r| => if k < 2 then r[k] else r[k] - r[k - 2])
  }

  /** The inverse: running sums of the two interleaved rows. */
  function Sums(d: seq<int>): (r: seq<int>)
    ensures |r| == |d|
  {
    if |d| == 0 then []
    else
      var front := Sums(d[..|d| - 1]);
      front + [d[|d| - 1] + (if |d| > 2 then front[|d| - 3] else 0)]
  }

  lemma {:induction false} SumsOfDeltas(r: seq<int>)
    ensures Sums(Deltas(r)) == r
  {
    if |r| > 0 {
      var n := |r| - 1;
      assert Deltas(r)[..n] == Deltas(r[..n]);
      SumsOfDeltas(r[..n]);
      assert r == r[..n] + [r[n]];
    }
  }

  lemma {:induction false} SumsAreInjective(d: seq<int>, e: seq<int>)
    requires Sums(d) == Sums(e)
    ensures d == e
  {
    assert |d| == |e|;
    if |d| > 0 {
      var n := |d| - 1;
      assert Sums(d)[..n] == Sums(d[..n]) && Sums(e)[..n] == Sums(e[..n]);
      SumsAreInjective(d[..n], e[..n]);
      assert Sums(d)[n] == Sums(e)[n];
      assert d == d[..n] + [d[n]] && e == e[..n] + [e[n]];
    }
  }

  // ---- sign in the lowest bit ----------------------------------------------

  /** Shift left by one in 32 bits, then complement a negative result. */
  function Zigzag(d: Int32): nat {
    var shifted: int := Wrap(2 * d);
    if shifted < 0 then -shifted - 1 else shifted
  }

  function Unzigzag(n: nat): int {
    if n % 2 == 0 then n / 2 else -((n + 1) / 2)
  }

  predicate Fits(d: int) {
    -TWO_30 <= d < TWO_30
  }

  /** The top bit is lost in the shift: exactly the numbers of 31 bits survive. */
  lemma ZigzagRoundTrip(d: int, unfit: Int32)
    ensures Unzigzag(Zigzag(ToInt(d, unfit))) == d <==> Fits(d)
  {
    var i := ToInt(d, unfit);
    var w := Wrap(2 * i);
    var q := (2 * i - w) / TWO_32;
    assert 2 * i == w + TWO_32 * q;
    assert Unzigzag(Zigzag(i)) == i - TWO_31 * q;
    assert Fits(i - TWO_31 * q);
  }

  // ---- groups of five bits ---------------------------------------------------

  const BACKSLASH := 92

  /** One character; a backslash is written twice. */
  function Written(code: int): string
    requires 0 <= code < 128
  {
    if code == BACKSLASH then [code as char, code as char] else [code as char]
  }

  function Number(n: nat): string {
    if n >= 0x20 then Written(0x20 + n % 0x20 + 63) + Number(n / 0x20)
    else Written(n + 63)
  }

  function Numbers(ns: seq<nat>): string {
    if |ns| == 0 then "" else Number(ns[0]) + Numbers(ns[1..])
  }

  lemma {:induction false} NumbersAppend(ns: seq<nat>, n: nat)
    ensures Numbers(ns + [n]) == Numbers(ns) + Number(n)
  {
    if |ns| == 0 {
      assert ns + [n] == [n] && [n][1..] == [];
      assert Numbers([n]) == Number(n) + Numbers([]);
    } else {
      assert (ns + [n])[1..] == ns[1..] + [n];
      NumbersAppend(ns[1..], n);
      assert Numbers(ns + [n]) == Number(ns[0]) + Numbers(ns[1..] + [n]);
    }
  }

  // ---- the reader ------------------------------------------------------------

  datatype Option<T> = None | Some(value: T)

  /** A number off the front of the text, and the text behind it. */
  function ReadNumber(s: string): (r: Option<(nat, string)>)
    ensures r.Some? ==> |r.value.1| < |s|
  {
    if |s| == 0 then None
    else
      var group := s[0] as int - 63;
      if group < 0 || group >= 0x40 then None
      else if group >= 0x20 then
        match ReadNumber(s[1..])
        case None => None
        case Some((high, rest)) => Some((group - 0x20 + 0x20 * high, rest))
      else if s[0] as int == BACKSLASH then
        if |s| > 1 && s[1] == s[0] then Some((group, s[2..])) else None
      else Some((group, s[1..]))
  }

  function ReadNumbers(s: string): Option<seq<nat>>
    decreases |s|
  {
    if |s| == 0 then Some([])
    else
      match ReadNumber(s)
      case None => None
      case Some((n, rest)) =>
        match ReadNumbers(rest)
        case None => None
        case Some(ns) => Some([n] + ns)
  }

  function Signed(ns: seq<nat>): (d: seq<int>)
    ensures |d| == |ns|
  {
    seq(|ns|, k requires 0 <= k < |ns| => Unzigzag(ns[k]))
  }

  /** The rounded ordinates that a text stands for. */
  function Decode(s: string): Option<seq<int>> {
    match ReadNumbers(s)
    case None => None
    case Some(ns) => Some(Sums(Signed(ns)))
  }

  /** A written number ends where it ends, whatever text follows. */
  lemma {:induction false} NumberRoundTrip(n: nat, rest: string)
    ensures ReadNumber(Number(n) + rest) == Some((n, rest))
    ensures |Number(n)| > 0
    decreases n
  {
    var s := Number(n) + rest;
    if n >= 0x20 {
      assert s[0] as int == 0x20 + n % 0x20 + 63;
      NumberRoundTrip(n / 0x20, rest);
      assert s[1..] == Number(n / 0x20) + rest;
    } else {
      assert s[|Written(n + 63)|..] == rest;
    }
  }

  lemma {:induction false} NumbersRoundTrip(ns: seq<nat>)
    ensures ReadNumbers(Numbers(ns)) == Some(ns)
  {
    if |ns| > 0 {
      NumberRoundTrip(ns[0], Numbers(ns[1..]));
      NumbersRoundTrip(ns[1..]);
      assert ns == [ns[0]] + ns[1..];
    }
  }

  // ---- the writer --------------------------------------------------------------

  /** The numbers that are written for a line. */
  function Codes(line: seq<Point2D>, scale: real, unfit: Int32): (c: seq<nat>)
    ensures |c| == 2 * |line|
  {
    var d := Deltas(Rounded(line, scale));
    seq(|d|, k requires 0 <= k < |d| => Zigzag(ToInt(d[k], unfit)))
  }

  predicate StepsFit(line: seq<Point2D>, scale: real) {
    var d := Deltas(Rounded(line, scale));
    forall k :: 0 <= k < |d| ==> Fits(d[k])
  }

  /** The text gives back every rounded ordinate, without drift along the line,
      exactly when no ordinate moves by 2^30 or more from point to point. */
  lemma RoundTrip(line: seq<Point2D>, scale: real, unfit: Int32)
    ensures Decode(Numbers(Codes(line, scale, unfit))) == Some(Rounded(line, scale))
            <==> StepsFit(line, scale)
  {
    var r := Rounded(line, scale);
    var d := Deltas(r);
    var codes := Codes(line, scale, unfit);
    NumbersRoundTrip(codes);
    SumsOfDeltas(r);
    forall k | 0 <= k < |d|
      ensures Signed(codes)[k] == d[k] <==> Fits(d[k])
    {
      ZigzagRoundTrip(d[k], unfit);
    }
    if StepsFit(line, scale) {
      assert Signed(codes) == d;
    } else {
      var k :| 0 <= k < |d| && !Fits(d[k]);
      assert Signed(codes)[k] != d[k];
      if Sums(Signed(codes)) == r {
        SumsAreInjective(Signed(codes), d);
      }
    }
  }

  /** Equal texts stand for equal rounded lines. */
  lemma TextDeterminesLine(one: seq<Point2D>, two: seq<Point2D>, scale: real, unfit: Int32)
    requires StepsFit(one, scale) && StepsFit(two, scale)
    requires Numbers(Codes(one, scale, unfit)) == Numbers(Codes(two, scale, unfit))
    ensures Rounded(one, scale) == Rounded(two, scale)
  {
    RoundTrip(one, scale, unfit);
    RoundTrip(two, scale, unfit);
  }

  /** A step of 2^30 is already too long. */
  lemma LongStepLost(unfit: Int32)
    ensures var line := [Point2D(0.0, 0.0), Point2D(0.0, 1073741824.0)];
            Decode(Numbers(Codes(line, 1.0, unfit))) != Some(Rounded(line, 1.0))
  {
    var line := [Point2D(0.0, 0.0), Point2D(0.0, 1073741824.0)];
    RoundTrip(line, 1.0, unfit);
    assert Deltas(Rounded(line, 1.0))[2] == TWO_30;
  }

  /** The characters of a number: its digits to the base 32 from the lowest on, 95 added to
      all but the last and 63 to the last, a backslash written twice. */
  lemma NumberCharacters(n: nat)
    ensures n >= 32 ==> Number(n) == [(95 + n % 32) as char] + Number(n / 32)
    ensures n < 32 ==> Number(n) == if n == 29 then "\\\\" else [(63 + n) as char]
  {
    assert '\\' as int == 92;
  }

  /** The line of three points that descriptions of the format give. */
  method KnownText(unfit: Int32) returns (encoded: string)
    ensures encoded == "_p~iF~ps|U_ulLnnqC_mqNvxq`@"
  {
    var line := [Point2D(-120.2, 38.5), Point2D(-120.95, 40.7), Point2D(-126.453, 43.252)];
    encoded := PointArrayToEncodedPolyline(line, 5, unfit);
    KnownCodes(line, unfit);
    KnownNumbers();
  }

  lemma KnownCodes(line: seq<Point2D>, unfit: Int32)
    requires line == [Point2D(-120.2, 38.5), Point2D(-120.95, 40.7), Point2D(-126.453, 43.252)]
    ensures Codes(line, Scale(5), unfit) == [7700000, 24039999, 440000, 149999, 510400, 1100599]
  {
    assert Scale(5) == 100000.0 by {
      ScaleIsPowerOfTen(0);
      ScaleIsPowerOfTen(1);
      ScaleIsPowerOfTen(2);
      ScaleIsPowerOfTen(3);
      ScaleIsPowerOfTen(4);
    }
    var r := Rounded(line, 100000.0);
    assert r == [3850000, -12020000, 4070000, -12095000, 4325200, -12645300];
    assert Deltas(r) == [3850000, -12020000, 220000, -75000, 255200, -550300];
  }

  lemma NumbersStep(all: seq<nat>, n: nat, rest: seq<nat>, first: string, others: string)
    requires all != [] && all[0] == n && all[1..] == rest && Number(n) == first && Numbers(rest) == others
    ensures Numbers(all) == first + others
  {
    hide Number;
  }

  lemma FromFifth()
    ensures Numbers([510400, 1100599]) == "_mqNvxq`@"
  {
    hide Number, Numbers;
    FifthNumber();
    FromSixth();
    var all: seq<nat> := [510400, 1100599];
    NumbersStep(all, 510400, [1100599], "_mqN", "vxq`@");
  }

  lemma FromFourth()
    ensures Numbers([149999, 510400, 1100599]) == "nnqC_mqNvxq`@"
  {
    hide Number, Numbers;
    FourthNumber();
    FromFifth();
    var all: seq<nat> := [149999, 510400, 1100599];
    NumbersStep(all, 149999, [510400, 1100599], "nnqC", "_mqNvxq`@");
  }

  lemma FromThird()
    ensures Numbers([440000, 149999, 510400, 1100599]) == "_ulLnnqC_mqNvxq`@"
  {
    hide Number, Numbers;
    ThirdNumber();
    FromFourth();
    var all: seq<nat> := [440000, 149999, 510400, 1100599];
    NumbersStep(all, 440000, [149999, 510400, 1100599], "_ulL", "nnqC_mqNvxq`@");
  }

  lemma FromSecond()
    ensures Numbers([24039999, 440000, 149999, 510400, 1100599]) == "~ps|U_ulLnnqC_mqNvxq`@"
  {
    hide Number, Numbers;
    SecondNumber();
    FromThird();
    var all: seq<nat> := [24039999, 440000, 149999, 510400, 1100599];
    NumbersStep(all, 24039999, [440000, 149999, 510400, 1100599], "~ps|U", "_ulLnnqC_mqNvxq`@");
  }

  lemma KnownNumbers()
    ensures Numbers([7700000, 24039999, 440000, 149999, 510400, 1100599]) == "_p~iF~ps|U_ulLnnqC_mqNvxq`@"
  {
    hide Number, Numbers;
    FirstNumber();
    FromSecond();
    var all: seq<nat> := [7700000, 24039999, 440000, 149999, 510400, 1100599];
    NumbersStep(all, 7700000, [24039999, 440000, 149999, 510400, 1100599], "_p~iF", "~ps|U_ulLnnqC_mqNvxq`@");
  }

  lemma FromSixth()
    ensures Numbers([1100599]) == "vxq`@"
  {
    hide Number;
    SixthNumber();
    assert Numbers([]) == "";
    var all: seq<nat> := [1100599];
    NumbersStep(all, 1100599, [], "vxq`@", "");
  }

  lemma FirstNumber()
    ensures Number(7700000) == "_p~iF"
  {
    assert Number(7) == "F";
    assert Number(234) == "iF";
    assert Number(7519) == "~iF";
    assert Number(240625) == "p~iF";
  }

  lemma SecondNumber()
    ensures Number(24039999) == "~ps|U"
  {
    assert Number(22) == "U";
    assert Number(733) == "|U";
    assert Number(23476) == "s|U";
    assert Number(751249) == "ps|U";
  }

  lemma ThirdNumber()
    ensures Number(440000) == "_ulL"
  {
    assert Number(13) == "L";
    assert Number(429) == "lL";
    assert Number(13750) == "ulL";
  }

  lemma FourthNumber()
    ensures Number(149999) == "nnqC"
  {
    assert Number(4) == "C";
    assert Number(146) == "qC";
    assert Number(4687) == "nqC";
  }

  lemma FifthNumber()
    ensures Number(510400) == "_mqN"
  {
    assert Number(15) == "N";
    assert Number(498) == "qN";
    assert Number(15950) == "mqN";
  }

  lemma SixthNumber()
    ensures Number(1100599) == "vxq`@"
  {
    assert Number(1) == "@";
    assert Number(33) == "`@";
    assert Number(1074) == "q`@";
    assert Number(34393) == "xq`@";
  }

  /** The code writes `code` and, for a backslash, writes it again. */
  method Append(sb: string, code: int) returns (r: string)
    requires 0 <= code < 128
    ensures r == sb + Written(code)
  {
    r := sb + [code as char];
    if BACKSLASH == code {
      r := r + [code as char];
    }
  }

  method AppendNumber(sb: string, n: nat) returns (r: string)
    ensures r == sb + Number(n)
  {
    r := sb;
    var numberToEncode := n;
    while numberToEncode >= 0x20
      invariant 0 <= numberToEncode
      invariant r + Number(numberToEncode) == sb + Number(n)
    {
      ghost var before, was := r, numberToEncode;
      var nextValue := 0x20 + numberToEncode % 0x20 + 63;
      r := Append(r, nextValue);
      numberToEncode := numberToEncode / 0x20;
      assert r + Number(numberToEncode) == before + (Written(nextValue) + Number(numberToEncode));
    }
    r := Append(r, numberToEncode + 63);
  }

  lemma RoundedAt(line: seq<Point2D>, scale: real, i: nat)
    requires i < |line|
    ensures Rounded(line, scale)[2 * i] == Snap(line[i].y, scale)
    ensures Rounded(line, scale)[2 * i + 1] == Snap(line[i].x, scale)
  {
    hide Snap;
    assert Ordinate(line, 2 * i) == line[i].y && Ordinate(line, 2 * i + 1) == line[i].x;
  }

  method FillDeltas(pa: seq<Point2D>, scale: real, unfit: Int32, delta: array<int>)
    requires |pa| > 0 && delta.Length == 2 * |pa|
    modifies delta
    ensures forall k :: 0 <= k < delta.Length ==> delta[k] == ToInt(Deltas(Rounded(pa, scale))[k], unfit)
  {
    hide Snap, Rounded;
    ghost var r := Rounded(pa, scale);
    ghost var d := Deltas(r);
    var prevPoint := pa[0];
    delta[0] := ToInt(Snap(prevPoint.y, scale), unfit);
    delta[1] := ToInt(Snap(prevPoint.x, scale), unfit);
    RoundedAt(pa, scale, 0);
    assert d[0] == r[0] && d[1] == r[1];
    for i := 1 to |pa|
      invariant prevPoint == pa[i - 1]
      invariant forall k :: 0 <= k < 2 * i ==> delta[k] == ToInt(d[k], unfit)
    {
      var point := pa[i];
      delta[2 * i] := ToInt(Snap(point.y, scale) - Snap(prevPoint.y, scale), unfit);
      delta[2 * i + 1] := ToInt(Snap(point.x, scale) - Snap(prevPoint.x, scale), unfit);
      RoundedAt(pa, scale, i);
      RoundedAt(pa, scale, i - 1);
      prevPoint := point;
    }
  }

  method FoldSigns(delta: array<int>)
    requires forall k :: 0 <= k < delta.Length ==> IsInt(delta[k])
    modifies delta
    ensures forall k :: 0 <= k < delta.Length ==> delta[k] == Zigzag(old(delta[k]))
  {
    for i := 0 to delta.Length
      invariant forall k :: 0 <= k < i ==> delta[k] == Zigzag(old(delta[k]))
      invariant forall k :: i <= k < delta.Length ==> delta[k] == old(delta[k])
    {
      delta[i] := Wrap(2 * delta[i]);
      if delta[i] < 0 {
        delta[i] := -delta[i] - 1;
      }
    }
  }

  method WriteNumbers(delta: array<int>) returns (sb: string)
    requires forall k :: 0 <= k < delta.Length ==> delta[k] >= 0
    ensures sb == Numbers(delta[..])
  {
    sb := "";
    for i := 0 to delta.Length
      invariant sb == Numbers(delta[..i])
    {
      sb := AppendNumber(sb, delta[i]);
      NumbersAppend(delta[..i], delta[i]);
      assert delta[..i + 1] == delta[..i] + [delta[i]];
    }
    assert delta[..delta.Length] == delta[..];
  }

  method PointArrayToEncodedPolyline(pa: seq<Point2D>, precision: int, unfit: Int32)
    returns (encoded: string)
    requires |pa| > 0
    ensures Decode(encoded) == Some(Rounded(pa, Scale(precision))) <==> StepsFit(pa, Scale(precision))
    ensures encoded == Numbers(Codes(pa, Scale(precision), unfit))
  {
    hide Rounded, Deltas, Zigzag, Scale, Numbers, Decode, StepsFit;
    var scale := Scale(precision);
    var delta := new int[2 * |pa|];
    FillDeltas(pa, scale, unfit, delta);
    FoldSigns(delta);
    assert delta[..] == Codes(pa, scale, unfit);
    encoded := WriteNumbers(delta);
    RoundTrip(pa, scale, unfit);
  }
}
