/**
 * MessagePack: the heads of the "Formats" section of its specification, the recursive grammar over
 * them, and the deterministic reader both are compared with.
 */
module MsgPack {
  import opened Bytes

  /** The head of one value: a whole leaf, or a container's item (array) or pair (map) count. */
  datatype Token =
    | TNil
    | TBool(b: bool)
    | TInt(n: int)
    | TFloat(raw: seq<byte>)
    | TStr(s: seq<byte>)
    | TBin(s: seq<byte>)
    | TExt(ty: byte, s: seq<byte>)
    | TArray(count: nat)
    | TMap(count: nat)

  /** How many values follow a head before its own value is complete. */
  function Children(t: Token): nat {
    if t.TArray? then t.count else if t.TMap? then 2 * t.count else 0
  }

  // ---- the format table ----

  /** A lead byte, a `w`-byte big-endian count, then `body`. */
  predicate SizedForm(h: seq<byte>, lead: byte, n: nat, w: nat, body: seq<byte>) {
    n < Pow256(w) && h == [lead] + ToBE(n, w) + body
  }

  predicate UintForm(h: seq<byte>, lead: byte, n: int, w: nat) {
    0 <= n && SizedForm(h, lead, n, w, [])
  }

  predicate IntForm(h: seq<byte>, lead: byte, n: int, w: nat) {
    && 0 <= 2 * n + Pow256(w) && 2 * n < Pow256(w)
    && SizedForm(h, lead, Wrap(n, Pow256(w)), w, [])
  }

  /** `h` is one of the encodings the specification allows for the head `t`. */
  predicate IsHead(t: Token, h: seq<byte>) {
    match t
    case TNil => h == [0xc0]
    case TBool(b) => h == [if b then 0xc3 else 0xc2]
    case TInt(n) =>
      || (0 <= n < 128 && h == [n])
      || (-32 <= n < 0 && h == [n + 256])
      || UintForm(h, 0xcc, n, 1) || UintForm(h, 0xcd, n, 2) || UintForm(h, 0xce, n, 4) || UintForm(h, 0xcf, n, 8)
      || IntForm(h, 0xd0, n, 1) || IntForm(h, 0xd1, n, 2) || IntForm(h, 0xd2, n, 4) || IntForm(h, 0xd3, n, 8)
    case TFloat(raw) => (|raw| == 4 && h == [0xca] + raw) || (|raw| == 8 && h == [0xcb] + raw)
    case TStr(s) =>
      || (|s| < 32 && h == [0xa0 + |s|] + s)
      || SizedForm(h, 0xd9, |s|, 1, s) || SizedForm(h, 0xda, |s|, 2, s) || SizedForm(h, 0xdb, |s|, 4, s)
    case TBin(s) =>
      SizedForm(h, 0xc4, |s|, 1, s) || SizedForm(h, 0xc5, |s|, 2, s) || SizedForm(h, 0xc6, |s|, 4, s)
    case TExt(ty, s) =>
      || (|s| == 1 && h == [0xd4, ty] + s) || (|s| == 2 && h == [0xd5, ty] + s)
      || (|s| == 4 && h == [0xd6, ty] + s) || (|s| == 8 && h == [0xd7, ty] + s)
      || (|s| == 16 && h == [0xd8, ty] + s)
      || SizedForm(h, 0xc7, |s|, 1, [ty] + s) || SizedForm(h, 0xc8, |s|, 2, [ty] + s)
      || SizedForm(h, 0xc9, |s|, 4, [ty] + s)
    case TArray(n) =>
      (n < 16 && h == [0x90 + n]) || SizedForm(h, 0xdc, n, 2, []) || SizedForm(h, 0xdd, n, 4, [])
    case TMap(n) =>
      (n < 16 && h == [0x80 + n]) || SizedForm(h, 0xde, n, 2, []) || SizedForm(h, 0xdf, n, 4, [])
  }

  // ---- the reader ----

  datatype Head = NoHead | Read(t: Token, len: nat)

  /** The `w`-byte big-endian integer after the lead byte. */
  function BeAt(s: seq<byte>, w: nat): Option<nat> {
    if |s| < 1 + w then None else Some(FromBE(s[1..1 + w]))
  }

  function ReadUint(s: seq<byte>, w: nat): Head {
    match BeAt(s, w)
    case None => NoHead
    case Some(n) => Read(TInt(n), 1 + w)
  }

  function ReadSint(s: seq<byte>, w: nat): Head
    requires w > 0
  {
    match BeAt(s, w)
    case None => NoHead
    case Some(n) =>
      BeInverse(s[1..1 + w]);
      Read(TInt(Signed(n, Pow256(w))), 1 + w)
  }

  datatype Kind = KStr | KBin | KExt

  /** `n` payload bytes after `skip` bytes of lead and length (an extension has a type byte first). */
  function ReadBody(s: seq<byte>, skip: nat, n: nat, k: Kind): Head {
    if k == KExt then
      if |s| < skip + 1 + n then NoHead
      else Read(TExt(s[skip], s[skip + 1..skip + 1 + n]), skip + 1 + n)
    else if |s| < skip + n then NoHead
    else
      var body := s[skip..skip + n];
      Read(if k == KStr then TStr(body) else TBin(body), skip + n)
  }

  function ReadSized(s: seq<byte>, w: nat, k: Kind): Head {
    match BeAt(s, w)
    case None => NoHead
    case Some(n) => ReadBody(s, 1 + w, n, k)
  }

  function ReadCount(s: seq<byte>, w: nat, map_: bool): Head {
    match BeAt(s, w)
    case None => NoHead
    case Some(n) => Read(if map_ then TMap(n) else TArray(n), 1 + w)
  }

  function ReadRaw(s: seq<byte>, w: nat): Head {
    if |s| < 1 + w then NoHead else Read(TFloat(s[1..1 + w]), 1 + w)
  }

  /** The head at the start of `s` and the bytes it takes, decided by its lead byte. */
  function ReadHead(s: seq<byte>): (r: Head)
    ensures r.Read? ==> 0 < r.len <= |s|
  {
    if s == [] then NoHead else
    var b: int := s[0];
    if b < 0x80 then Read(TInt(b), 1)
    else if b < 0x90 then Read(TMap(b - 0x80), 1)
    else if b < 0xa0 then Read(TArray(b - 0x90), 1)
    else if b < 0xc0 then ReadBody(s, 1, b - 0xa0, KStr)
    else if b >= 0xe0 then Read(TInt(b - 256), 1)
    else if b < 0xd0 then
      if b == 0xc0 then Read(TNil, 1)
      else if b == 0xc1 then NoHead
      else if b == 0xc2 then Read(TBool(false), 1)
      else if b == 0xc3 then Read(TBool(true), 1)
      else if b == 0xc4 then ReadSized(s, 1, KBin)
      else if b == 0xc5 then ReadSized(s, 2, KBin)
      else if b == 0xc6 then ReadSized(s, 4, KBin)
      else if b == 0xc7 then ReadSized(s, 1, KExt)
      else if b == 0xc8 then ReadSized(s, 2, KExt)
      else if b == 0xc9 then ReadSized(s, 4, KExt)
      else if b == 0xca then ReadRaw(s, 4)
      else if b == 0xcb then ReadRaw(s, 8)
      else if b == 0xcc then ReadUint(s, 1)
      else if b == 0xcd then ReadUint(s, 2)
      else if b == 0xce then ReadUint(s, 4)
      else ReadUint(s, 8)
    else
      if b == 0xd0 then ReadSint(s, 1)
      else if b == 0xd1 then ReadSint(s, 2)
      else if b == 0xd2 then ReadSint(s, 4)
      else if b == 0xd3 then ReadSint(s, 8)
      else if b == 0xd4 then ReadBody(s, 1, 1, KExt)
      else if b == 0xd5 then ReadBody(s, 1, 2, KExt)
      else if b == 0xd6 then ReadBody(s, 1, 4, KExt)
      else if b == 0xd7 then ReadBody(s, 1, 8, KExt)
      else if b == 0xd8 then ReadBody(s, 1, 16, KExt)
      else if b == 0xd9 then ReadSized(s, 1, KStr)
      else if b == 0xda then ReadSized(s, 2, KStr)
      else if b == 0xdb then ReadSized(s, 4, KStr)
      else if b == 0xdc then ReadCount(s, 2, false)
      else if b == 0xdd then ReadCount(s, 4, false)
      else if b == 0xde then ReadCount(s, 2, true)
      else ReadCount(s, 4, true)
  }

  // ---- the reader reads exactly the table ----

  lemma BeOfSized(h: seq<byte>, lead: byte, n: nat, w: nat, body: seq<byte>, rest: seq<byte>)
    requires SizedForm(h, lead, n, w, body)
    ensures var s := h + rest;
      && s[0] == lead && BeAt(s, w) == Some(n) && |h| == 1 + w + |body|
      && s[1 + w..1 + w + |body|] == body
  {
    var s := h + rest;
    assert s[1..1 + w] == ToBE(n, w);
    BeRoundTrip(n, w);
    assert s[1 + w..1 + w + |body|] == body;
  }

  lemma SizedOfBe(s: seq<byte>, w: nat, n: nat, k: nat)
    requires BeAt(s, w) == Some(n) && 1 + w + k <= |s|
    ensures SizedForm(s[..1 + w + k], s[0], n, w, s[1 + w..1 + w + k])
  {
    BeInverse(s[1..1 + w]);
    assert s[..1 + w + k] == [s[0]] + s[1..1 + w] + s[1 + w..1 + w + k];
  }

  lemma UintSound(s: seq<byte>, w: nat)
    requires s != [] && ReadUint(s, w).Read?
    ensures var r := ReadUint(s, w); r.len <= |s| && UintForm(s[..r.len], s[0], r.t.n, w)
  {
    SizedOfBe(s, w, BeAt(s, w).value, 0);
  }

  lemma SintSound(s: seq<byte>, w: nat)
    requires s != [] && w > 0 && ReadSint(s, w).Read?
    ensures var r := ReadSint(s, w); r.len <= |s| && IntForm(s[..r.len], s[0], r.t.n, w)
  {
    SizedOfBe(s, w, BeAt(s, w).value, 0);
    BeInverse(s[1..1 + w]);
  }

  lemma CountSound(s: seq<byte>, w: nat, map_: bool)
    requires s != [] && ReadCount(s, w, map_).Read?
    ensures var r := ReadCount(s, w, map_);
      r.len <= |s| && (r.t.TMap? || r.t.TArray?) && SizedForm(s[..r.len], s[0], r.t.count, w, [])
  {
    SizedOfBe(s, w, BeAt(s, w).value, 0);
  }

  lemma SizedSound(s: seq<byte>, w: nat, k: Kind)
    requires s != [] && ReadSized(s, w, k).Read?
    ensures var r := ReadSized(s, w, k);
      && r.len <= |s|
      && match k
         case KStr => r.t.TStr? && SizedForm(s[..r.len], s[0], |r.t.s|, w, r.t.s)
         case KBin => r.t.TBin? && SizedForm(s[..r.len], s[0], |r.t.s|, w, r.t.s)
         case KExt => r.t.TExt? && SizedForm(s[..r.len], s[0], |r.t.s|, w, [r.t.ty] + r.t.s)
  {
    var r, n := ReadSized(s, w, k), BeAt(s, w).value;
    SizedOfBe(s, w, n, r.len - 1 - w);
    if k == KExt {
      assert s[1 + w..r.len] == [r.t.ty] + r.t.s;
    }
  }

  ghost predicate SoundAt(s: seq<byte>) {
    var r := ReadHead(s); r.Read? ==> IsHead(r.t, s[..r.len])
  }

  lemma BlobsSound(s: seq<byte>)
    requires s != [] && (0xc4 <= s[0] <= 0xc9 || 0xd9 <= s[0] <= 0xdb)
    ensures SoundAt(s)
  {
    if ReadHead(s).Read? {
      var b := s[0];
      if b <= 0xc6 {
        SizedSound(s, if b == 0xc4 then 1 else if b == 0xc5 then 2 else 4, KBin);
      } else if b <= 0xc9 {
        SizedSound(s, if b == 0xc7 then 1 else if b == 0xc8 then 2 else 4, KExt);
      } else {
        SizedSound(s, if b == 0xd9 then 1 else if b == 0xda then 2 else 4, KStr);
      }
    }
  }

  lemma IntsSound(s: seq<byte>)
    requires s != [] && 0xcc <= s[0] <= 0xd3
    ensures SoundAt(s)
  {
    if ReadHead(s).Read? {
      var b := s[0];
      if b <= 0xcf {
        UintSound(s, if b == 0xcc then 1 else if b == 0xcd then 2 else if b == 0xce then 4 else 8);
      } else {
        SintSound(s, if b == 0xd0 then 1 else if b == 0xd1 then 2 else if b == 0xd2 then 4 else 8);
      }
    }
  }

  lemma FixedSound(s: seq<byte>)
    requires s != [] && (s[0] < 0xc4 || s[0] >= 0xe0)
    ensures SoundAt(s)
  {
    var r := ReadHead(s);
    if r.Read? {
      assert s[..r.len] == [s[0]] + s[1..r.len];
    }
  }

  lemma FloatsSound(s: seq<byte>)
    requires s != [] && 0xca <= s[0] <= 0xcb
    ensures SoundAt(s)
  {
    var r := ReadHead(s);
    if r.Read? {
      assert s[..r.len] == [s[0]] + s[1..r.len];
    }
  }

  lemma FixExtsSound(s: seq<byte>)
    requires s != [] && 0xd4 <= s[0] <= 0xd8
    ensures SoundAt(s)
  {
    var r := ReadHead(s);
    if r.Read? {
      assert s[..r.len] == [s[0], s[1]] + s[2..r.len];
    }
  }

  lemma OthersSound(s: seq<byte>)
    requires s != [] && (0xca <= s[0] <= 0xcb || 0xd4 <= s[0] <= 0xd8 || 0xdc <= s[0] <= 0xdf)
    ensures SoundAt(s)
  {
    var b := s[0];
    if b <= 0xcb {
      FloatsSound(s);
    } else if b <= 0xd8 {
      FixExtsSound(s);
    } else if ReadHead(s).Read? {
      CountSound(s, if b % 2 == 0 then 2 else 4, b >= 0xde);
    }
  }

  /** A head that is read is in the table: soundness of the reader. */
  lemma ReadHeadSound(s: seq<byte>)
    ensures var r := ReadHead(s); r.Read? ==> IsHead(r.t, s[..r.len])
  {
    if s != [] {
      var b := s[0];
      if b < 0xc4 || b >= 0xe0 {
        FixedSound(s);
      } else if b <= 0xc9 || 0xd9 <= b <= 0xdb {
        BlobsSound(s);
      } else if 0xcc <= b <= 0xd3 {
        IntsSound(s);
      } else {
        OthersSound(s);
      }
      assert SoundAt(s);
    }
  }

  lemma UintComplete(h: seq<byte>, lead: byte, n: int, w: nat, rest: seq<byte>)
    requires UintForm(h, lead, n, w)
    ensures (h + rest)[0] == lead && ReadUint(h + rest, w) == Read(TInt(n), |h|)
  {
    BeOfSized(h, lead, n, w, [], rest);
  }

  lemma IntComplete(h: seq<byte>, lead: byte, n: int, w: nat, rest: seq<byte>)
    requires w > 0 && IntForm(h, lead, n, w)
    ensures (h + rest)[0] == lead && ReadSint(h + rest, w) == Read(TInt(n), |h|)
  {
    BeOfSized(h, lead, Wrap(n, Pow256(w)), w, [], rest);
  }

  lemma SizedComplete(h: seq<byte>, lead: byte, body: seq<byte>, w: nat, rest: seq<byte>)
    ensures SizedForm(h, lead, |body|, w, body) ==>
      && (h + rest)[0] == lead
      && ReadSized(h + rest, w, KStr) == Read(TStr(body), |h|)
      && ReadSized(h + rest, w, KBin) == Read(TBin(body), |h|)
  {
    if SizedForm(h, lead, |body|, w, body) {
      BeOfSized(h, lead, |body|, w, body, rest);
    }
  }

  lemma ExtComplete(h: seq<byte>, lead: byte, ty: byte, body: seq<byte>, w: nat, rest: seq<byte>)
    ensures SizedForm(h, lead, |body|, w, [ty] + body) ==>
      (h + rest)[0] == lead && ReadSized(h + rest, w, KExt) == Read(TExt(ty, body), |h|)
  {
    if SizedForm(h, lead, |body|, w, [ty] + body) {
      var s := h + rest;
      BeOfSized(h, lead, |body|, w, [ty] + body, rest);
      assert s[1 + w] == s[1 + w..1 + w + 1 + |body|][0];
      assert s[1 + w + 1..1 + w + 1 + |body|] == s[1 + w..1 + w + 1 + |body|][1..];
    }
  }

  lemma CountComplete(h: seq<byte>, lead: byte, n: nat, w: nat, rest: seq<byte>)
    ensures SizedForm(h, lead, n, w, []) ==>
      && (h + rest)[0] == lead
      && ReadCount(h + rest, w, true) == Read(TMap(n), |h|)
      && ReadCount(h + rest, w, false) == Read(TArray(n), |h|)
  {
    if SizedForm(h, lead, n, w, []) {
      BeOfSized(h, lead, n, w, [], rest);
    }
  }

  lemma IntHeadComplete(n: int, h: seq<byte>, rest: seq<byte>)
    requires IsHead(TInt(n), h)
    ensures ReadHead(h + rest) == Read(TInt(n), |h|)
  {
    if UintForm(h, 0xcc, n, 1) { UintComplete(h, 0xcc, n, 1, rest); }
    else if UintForm(h, 0xcd, n, 2) { UintComplete(h, 0xcd, n, 2, rest); }
    else if UintForm(h, 0xce, n, 4) { UintComplete(h, 0xce, n, 4, rest); }
    else if UintForm(h, 0xcf, n, 8) { UintComplete(h, 0xcf, n, 8, rest); }
    else if IntForm(h, 0xd0, n, 1) { IntComplete(h, 0xd0, n, 1, rest); }
    else if IntForm(h, 0xd1, n, 2) { IntComplete(h, 0xd1, n, 2, rest); }
    else if IntForm(h, 0xd2, n, 4) { IntComplete(h, 0xd2, n, 4, rest); }
    else if IntForm(h, 0xd3, n, 8) { IntComplete(h, 0xd3, n, 8, rest); }
  }

  lemma StrHeadComplete(b: seq<byte>, h: seq<byte>, rest: seq<byte>)
    requires IsHead(TStr(b), h)
    ensures ReadHead(h + rest) == Read(TStr(b), |h|)
  {
    SizedComplete(h, 0xd9, b, 1, rest);
    SizedComplete(h, 0xda, b, 2, rest);
    SizedComplete(h, 0xdb, b, 4, rest);
    if |b| < 32 && h == [0xa0 + |b|] + b {
      assert (h + rest)[1..1 + |b|] == b;
    }
  }

  lemma BinHeadComplete(b: seq<byte>, h: seq<byte>, rest: seq<byte>)
    requires IsHead(TBin(b), h)
    ensures ReadHead(h + rest) == Read(TBin(b), |h|)
  {
    SizedComplete(h, 0xc4, b, 1, rest);
    SizedComplete(h, 0xc5, b, 2, rest);
    SizedComplete(h, 0xc6, b, 4, rest);
  }

  lemma ExtHeadComplete(ty: byte, b: seq<byte>, h: seq<byte>, rest: seq<byte>)
    requires IsHead(TExt(ty, b), h)
    ensures ReadHead(h + rest) == Read(TExt(ty, b), |h|)
  {
    hide ToBE, FromBE, ReadSized;
    if SizedForm(h, 0xc7, |b|, 1, [ty] + b) {
      ExtComplete(h, 0xc7, ty, b, 1, rest);
    } else if SizedForm(h, 0xc8, |b|, 2, [ty] + b) {
      ExtComplete(h, 0xc8, ty, b, 2, rest);
    } else if SizedForm(h, 0xc9, |b|, 4, [ty] + b) {
      ExtComplete(h, 0xc9, ty, b, 4, rest);
    } else {
      hide SizedForm;
      var s := h + rest;
      assert |h| == 2 + |b| && h[1] == ty && h[2..] == b;
      assert s[0] == h[0] && s[1] == ty && s[2..2 + |b|] == b;
    }
  }

  /** Every head in the table is read back, whatever follows it: completeness, and no ambiguity. */
  lemma ReadHeadComplete(t: Token, h: seq<byte>, rest: seq<byte>)
    requires IsHead(t, h)
    ensures ReadHead(h + rest) == Read(t, |h|)
  {
    match t
    case TInt(n) => IntHeadComplete(n, h, rest);
    case TStr(b) => StrHeadComplete(b, h, rest);
    case TBin(b) => BinHeadComplete(b, h, rest);
    case TExt(ty, b) => ExtHeadComplete(ty, b, h, rest);
    case TFloat(raw) => assert (h + rest)[1..1 + |raw|] == raw;
    case TArray(n) =>
      CountComplete(h, 0xdc, n, 2, rest);
      CountComplete(h, 0xdd, n, 4, rest);
    case TMap(n) =>
      CountComplete(h, 0xde, n, 2, rest);
      CountComplete(h, 0xdf, n, 4, rest);
    case TNil =>
    case TBool(_) =>
  }
}
