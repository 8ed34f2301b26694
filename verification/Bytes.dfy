/** Byte buffers: little-endian words, what stands where, and overwriting in place. */
module Bytes {
  type Byte = b: int | 0 <= b < 0x100

  const WORD := 0x1_0000_0000

  /** The low 32 bits of n, least significant byte first. */
  function LE32(n: nat): (s: seq<Byte>)
    ensures |s| == 4
  {
    [n % 0x100, n / 0x100 % 0x100, n / 0x1_0000 % 0x100, n / 0x100_0000 % 0x100]
  }

  /** The 32-bit word at an offset. */
  function U32(buf: seq<Byte>, at: nat): nat
    requires at + 4 <= |buf|
  {
    var a: int, b: int, c: int, d: int := buf[at], buf[at + 1], buf[at + 2], buf[at + 3];
    a + 0x100 * b + 0x1_0000 * c + 0x100_0000 * d
  }

  /** s stands in buf at an offset. */
  predicate At(buf: seq<Byte>, at: nat, s: seq<Byte>) {
    at + |s| <= |buf| && buf[at..at + |s|] == s
  }

  lemma AtConcat(buf: seq<Byte>, at: nat, s: seq<Byte>, t: seq<Byte>)
    ensures At(buf, at, s + t) <==> At(buf, at, s) && At(buf, at + |s|, t)
  {
    if at + |s| + |t| <= |buf| {
      var both := buf[at..at + |s| + |t|];
      assert both[..|s|] == buf[at..at + |s|] && both[|s|..] == buf[at + |s|..at + |s| + |t|];
      assert both == both[..|s|] + both[|s|..];
      assert (s + t)[..|s|] == s && (s + t)[|s|..] == t;
    }
  }

  lemma SliceAt(buf: seq<Byte>, at: nat, s: seq<Byte>)
    requires At(buf, at, s)
    ensures at + |s| <= |buf| && buf[at..at + |s|] == s
  {
  }

  lemma WordAt(buf: seq<Byte>, at: nat, n: nat)
    requires n < WORD && At(buf, at, LE32(n))
    ensures at + 4 <= |buf| && U32(buf, at) == n
  {
    var s := LE32(n);
    assert buf[at..at + 4] == s;
    assert buf[at] == s[0] && buf[at + 1] == s[1] && buf[at + 2] == s[2] && buf[at + 3] == s[3];
    WordSum(n);
  }

  lemma WordSum(n: nat)
    requires n < WORD
    ensures n % 0x100 + 0x100 * (n / 0x100 % 0x100) + 0x1_0000 * (n / 0x1_0000 % 0x100)
            + 0x100_0000 * (n / 0x100_0000 % 0x100) == n
  {
    var a := n / 0x100;
    var b := a / 0x100;
    var c := b / 0x100;
    assert n / 0x1_0000 == b && n / 0x100_0000 == c;
  }

  /** buf with s written over it at an offset. */
  function Place(buf: seq<Byte>, at: nat, s: seq<Byte>): (r: seq<Byte>)
    requires at + |s| <= |buf|
    ensures |r| == |buf| && At(r, at, s)
  {
    buf[..at] + s + buf[at + |s|..]
  }

  lemma PlaceConcat(buf: seq<Byte>, at: nat, s: seq<Byte>, t: seq<Byte>)
    requires at + |s| + |t| <= |buf|
    ensures Place(Place(buf, at, s), at + |s|, t) == Place(buf, at, s + t)
  {
  }

  lemma PlaceNothing(buf: seq<Byte>, at: nat)
    requires at <= |buf|
    ensures Place(buf, at, []) == buf
  {
  }

  /** memcpy into a buffer; false, and nothing written, when it would run over the end. */
  method Put(buf: array<Byte>, loc: nat, s: seq<Byte>) returns (ok: bool)
    modifies buf
    ensures ok == (loc + |s| <= buf.Length)
    ensures ok ==> buf[..] == Place(old(buf[..]), loc, s)
    ensures !ok ==> buf[..] == old(buf[..])
  {
    if loc + |s| > buf.Length {
      return false;
    }
    for k := 0 to |s|
      invariant buf[..] == Place(old(buf[..]), loc, s[..k])
    {
      PlaceConcat(old(buf[..]), loc, s[..k], [s[k]]);
      assert s[..k + 1] == s[..k] + [s[k]];
      buf[loc + k] := s[k];
    }
    assert s[..|s|] == s;
    return true;
  }
}
