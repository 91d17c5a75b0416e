/** Well-formed UTF-8, as `core::str::from_utf8` accepts it (RFC 3629, section 4). */
module Utf8 {
  import opened Bytes

  predicate Cont(b: byte) {
    0x80 <= b <= 0xbf
  }

  /** The length of the well-formed character at the start of `s`, or 0. */
  function CharLen(s: seq<byte>): (n: nat)
    requires s != []
    ensures n <= |s|
  {
    var b := s[0];
    if b < 0x80 then 1
    else if 0xc2 <= b <= 0xdf then
      if |s| >= 2 && Cont(s[1]) then 2 else 0
    else if 0xe0 <= b <= 0xef then
      if |s| >= 3 && Cont(s[1]) && Cont(s[2]) && (b == 0xe0 ==> s[1] >= 0xa0) && (b == 0xed ==> s[1] <= 0x9f)
      then 3 else 0
    else if 0xf0 <= b <= 0xf4 then
      if |s| >= 4 && Cont(s[1]) && Cont(s[2]) && Cont(s[3]) && (b == 0xf0 ==> s[1] >= 0x90) && (b == 0xf4 ==> s[1] <= 0x8f)
      then 4 else 0
    else 0
  }

  predicate ValidUtf8(s: seq<byte>)
    decreases |s|
  {
    s == [] || (CharLen(s) > 0 && ValidUtf8(s[CharLen(s)..]))
  }

  lemma {:induction false} AsciiIsUtf8(s: seq<byte>)
    requires forall i :: 0 <= i < |s| ==> s[i] < 0x80
    ensures ValidUtf8(s)
    decreases |s|
  {
    if s != [] {
      AsciiIsUtf8(s[1..]);
    }
  }

  // ---- the encodings of the characters, and nothing else ----

  /** The bytes of one character: its code point in groups of six bits, the shortest form there is. */
  function EncodeChar(c: char): (s: seq<byte>)
    ensures 1 <= |s| <= 4
  {
    var n := c as int;
    if n < 0x80 then [n]
    else if n < 0x800 then [0xc0 + n / 64, 0x80 + n % 64]
    else if n < 0x1_0000 then [0xe0 + n / 4096, 0x80 + n / 64 % 64, 0x80 + n % 64]
    else [0xf0 + n / 262144, 0x80 + n / 4096 % 64, 0x80 + n / 64 % 64, 0x80 + n % 64]
  }

  function EncodeText(t: string): seq<byte> {
    if t == "" then [] else EncodeChar(t[0]) + EncodeText(t[1..])
  }

  /** A character is measured where it stands. */
  lemma CharMeasured(c: char, rest: seq<byte>)
    ensures CharLen(EncodeChar(c) + rest) == |EncodeChar(c)|
  {
  }

  lemma TwoFound(s: seq<byte>) returns (c: char)
    requires s != [] && CharLen(s) == 2
    ensures s[..2] == EncodeChar(c)
  {
    var x: int, y: int := s[0] - 0xc0, s[1] - 0x80;
    var n := x * 64 + y;
    TwoDigits(x, y);
    c := n as char;
  }

  lemma ThreeFound(s: seq<byte>) returns (c: char)
    requires s != [] && CharLen(s) == 3
    ensures s[..3] == EncodeChar(c)
  {
    var x: int, y: int, z: int := s[0] - 0xe0, s[1] - 0x80, s[2] - 0x80;
    var n := (x * 64 + y) * 64 + z;
    ThreeDigits(x, y, z);
    c := n as char;
    assert EncodeChar(c) == [0xe0 + x, 0x80 + y, 0x80 + z];
  }

  lemma FourFound(s: seq<byte>) returns (c: char)
    requires s != [] && CharLen(s) == 4
    ensures s[..4] == EncodeChar(c)
  {
    var x: int, y: int, z: int, w: int := s[0] - 0xf0, s[1] - 0x80, s[2] - 0x80, s[3] - 0x80;
    var n := ((x * 64 + y) * 64 + z) * 64 + w;
    FourDigits(x, y, z, w);
    c := n as char;
    assert EncodeChar(c) == [0xf0 + x, 0x80 + y, 0x80 + z, 0x80 + w];
  }

  lemma LengthOfChar(s: seq<byte>)
    requires s != []
    ensures CharLen(s) <= 4 && (CharLen(s) == 1 ==> s[0] < 0x80)
  {
  }

  /** What is measured is a character. */
  lemma CharFound(s: seq<byte>) returns (c: char)
    requires s != [] && CharLen(s) > 0
    ensures s[..CharLen(s)] == EncodeChar(c)
  {
    hide CharLen;
    var k := CharLen(s);
    LengthOfChar(s);
    if k == 1 {
      c := (s[0] as int) as char;
    } else {
      hide EncodeChar;
      if k == 2 {
        c := TwoFound(s);
      } else if k == 3 {
        c := ThreeFound(s);
      } else {
        c := FourFound(s);
      }
    }
  }

  lemma TwoDigits(x: nat, y: nat)
    requires y < 64
    ensures var n := x * 64 + y; n / 64 == x && n % 64 == y
  {
  }

  lemma ThreeDigits(x: nat, y: nat, z: nat)
    requires y < 64 && z < 64
    ensures var n := (x * 64 + y) * 64 + z; n / 4096 == x && n / 64 % 64 == y && n % 64 == z
  {
    TwoDigits(x * 64 + y, z);
    TwoDigits(x, y);
  }

  lemma FourDigits(x: nat, y: nat, z: nat, w: nat)
    requires y < 64 && z < 64 && w < 64
    ensures var n := ((x * 64 + y) * 64 + z) * 64 + w;
      n / 262144 == x && n / 4096 % 64 == y && n / 64 % 64 == z && n % 64 == w
  {
    TwoDigits((x * 64 + y) * 64 + z, w);
    ThreeDigits(x, y, z);
  }

  lemma {:induction false} TextIsUtf8(t: string)
    ensures ValidUtf8(EncodeText(t))
  {
    hide EncodeChar, CharLen;
    if t != "" {
      var e, rest := EncodeChar(t[0]), EncodeText(t[1..]);
      CharMeasured(t[0], rest);
      assert (e + rest)[|e|..] == rest;
      TextIsUtf8(t[1..]);
    }
  }

  lemma {:induction false} Utf8IsText(s: seq<byte>) returns (t: string)
    requires ValidUtf8(s)
    ensures EncodeText(t) == s
    decreases |s|
  {
    hide EncodeChar, CharLen;
    if s == [] {
      t := "";
    } else {
      var k := CharLen(s);
      var c := CharFound(s);
      var u := Utf8IsText(s[k..]);
      t := [c] + u;
      assert t[1..] == u && s == s[..k] + s[k..];
    }
  }

  /** The check accepts exactly the encodings of texts. */
  lemma Utf8Exact(s: seq<byte>)
    ensures ValidUtf8(s) <==> exists t: string :: EncodeText(t) == s
  {
    hide ValidUtf8, EncodeText;
    if ValidUtf8(s) {
      var t := Utf8IsText(s);
    }
    if t: string :| EncodeText(t) == s {
      TextIsUtf8(t);
    }
  }
}
