/** UTF-16LE, as `str::encode_utf16` writes it and `String::from_utf16` reads it. */
module Utf16 {
  import opened Bytes

  /** A 16-bit code unit. */
  type unit = x: int | 0 <= x < 0x1_0000

  function CharUnits(c: char): (u: seq<unit>)
    ensures 1 <= |u| <= 2
  {
    var n := c as int;
    if n < 0x1_0000 then [n] else [0xd800 + (n - 0x1_0000) / 0x400, 0xdc00 + (n - 0x1_0000) % 0x400]
  }

  function Units(s: string): seq<unit> {
    if s == "" then [] else CharUnits(s[0]) + Units(s[1..])
  }

  predicate High(u: unit) { 0xd800 <= u < 0xdc00 }

  predicate Low(u: unit) { 0xdc00 <= u < 0xe000 }

  /** Decodes code units; an unpaired surrogate is an error. */
  function FromUnits(u: seq<unit>): Option<string> {
    if u == [] then Some("")
    else if !High(u[0]) && !Low(u[0]) then Prepend(u[0] as char, FromUnits(u[1..]))
    else if High(u[0]) && |u| > 1 && Low(u[1]) then
      var hi: int, lo: int := u[0], u[1];
      Prepend((0x1_0000 + (hi - 0xd800) * 0x400 + (lo - 0xdc00)) as char, FromUnits(u[2..]))
    else None
  }

  function Prepend(c: char, s: Option<string>): Option<string> {
    match s
    case None => None
    case Some(t) => Some([c] + t)
  }

  lemma {:induction false} UnitsRoundTrip(s: string)
    ensures FromUnits(Units(s)) == Some(s)
  {
    if s != "" {
      UnitsRoundTrip(s[1..]);
      var u := Units(s);
      assert u[|CharUnits(s[0])|..] == Units(s[1..]);
      assert [s[0]] + s[1..] == s;
    }
  }

  lemma {:induction false} UnitsInverse(u: seq<unit>)
    ensures match FromUnits(u) case None => true case Some(s) => Units(s) == u
  {
    if u != [] {
      if !High(u[0]) && !Low(u[0]) {
        UnitsInverse(u[1..]);
        assert u == [u[0]] + u[1..];
      } else if High(u[0]) && |u| > 1 && Low(u[1]) {
        UnitsInverse(u[2..]);
        assert u == [u[0], u[1]] + u[2..];
      }
    }
  }

  /** The bytes of the code units, little-endian; no terminator. */
  function UnitBytes(u: seq<unit>): (b: seq<byte>)
    ensures |b| == 2 * |u|
  {
    if u == [] then [] else [u[0] % 256, u[0] / 256] + UnitBytes(u[1..])
  }

  function BytesUnits(b: seq<byte>): (u: seq<unit>)
    requires |b| % 2 == 0
    ensures |u| == |b| / 2
  {
    if b == [] then [] else
    var lo: int, hi: int := b[0], b[1];
    [lo + 256 * hi] + BytesUnits(b[2..])
  }

  lemma {:induction false} UnitBytesRoundTrip(u: seq<unit>)
    ensures BytesUnits(UnitBytes(u)) == u
  {
    if u != [] {
      UnitBytesRoundTrip(u[1..]);
      assert UnitBytes(u)[2..] == UnitBytes(u[1..]);
      assert u == [u[0]] + u[1..];
    }
  }

  lemma {:induction false} BytesUnitsInverse(b: seq<byte>)
    requires |b| % 2 == 0
    ensures UnitBytes(BytesUnits(b)) == b
  {
    if b != [] {
      BytesUnitsInverse(b[2..]);
      assert BytesUnits(b)[1..] == BytesUnits(b[2..]);
      assert b == [b[0], b[1]] + b[2..];
    }
  }

  function Utf16LE(s: string): seq<byte> {
    UnitBytes(Units(s))
  }

  /** `take_utf16_lp` on its body: an even number of bytes of well-formed UTF-16. */
  function FromUtf16LE(b: seq<byte>): Option<string> {
    if |b| % 2 != 0 then None else FromUnits(BytesUnits(b))
  }

  lemma Utf16RoundTrip(s: string)
    ensures FromUtf16LE(Utf16LE(s)) == Some(s)
  {
    UnitBytesRoundTrip(Units(s));
    UnitsRoundTrip(s);
  }

  lemma Utf16Inverse(b: seq<byte>)
    requires FromUtf16LE(b).Some?
    ensures Utf16LE(FromUtf16LE(b).value) == b
  {
    UnitsInverse(BytesUnits(b));
    BytesUnitsInverse(b);
  }
}
