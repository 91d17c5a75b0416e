/** The MessagePack writer: smallest-form encoders, the sticky error, and the final structural check. */
module MsgPackWriter {
  import opened Bytes
  import opened Utf8
  import opened MsgPack
  import opened MsgPackGrammar
  import opened MsgPackCursor

  const EINVAL := 22

  // ---- encoders ----

  function EncU64(v: nat): seq<byte>
    requires InU64(v)
  {
    if v < 0x80 then [v]
    else if v <= 0xff then [0xcc, v]
    else if v <= 0xffff then [0xcd] + ToBE(v, 2)
    else if v <= 0xffff_ffff then [0xce] + ToBE(v, 4)
    else [0xcf] + ToBE(v, 8)
  }

  function EncI64(v: int): seq<byte>
    requires InI64(v)
  {
    if v >= 0 then EncU64(v)
    else if v >= -32 then [v + 256]
    else if v >= -0x80 then [0xd0, v + 0x100]
    else if v >= -0x8000 then [0xd1] + ToBE(v + 0x1_0000, 2)
    else if v >= -0x8000_0000 then [0xd2] + ToBE(v + 0x1_0000_0000, 4)
    else [0xd3] + ToBE(v + 0x1_0000_0000_0000_0000, 8)
  }

  predicate FitsU32(s: seq<byte>) {
    |s| <= 0xffff_ffff
  }

  function EncStr(s: seq<byte>): seq<byte>
    requires FitsU32(s)
  {
    var n := |s|;
    (if n <= 31 then [0xa0 + n]
     else if n <= 0xff then [0xd9, n]
     else if n <= 0xffff then [0xda] + ToBE(n, 2)
     else [0xdb] + ToBE(n, 4)) + s
  }

  function EncBin(s: seq<byte>): seq<byte>
    requires FitsU32(s)
  {
    var n := |s|;
    (if n <= 0xff then [0xc4, n]
     else if n <= 0xffff then [0xc5] + ToBE(n, 2)
     else [0xc6] + ToBE(n, 4)) + s
  }

  function EncArray(n: nat): seq<byte> {
    if n <= 15 then [0x90 + n] else if n <= 0xffff then [0xdc] + ToBE(n, 2) else [0xdd] + ToBE(n, 4)
  }

  function EncMap(n: nat): seq<byte> {
    if n <= 15 then [0x80 + n] else if n <= 0xffff then [0xde] + ToBE(n, 2) else [0xdf] + ToBE(n, 4)
  }

  function EncExt(ty: byte, s: seq<byte>): seq<byte>
    requires FitsU32(s)
  {
    var n := |s|;
    (if n == 1 then [0xd4]
     else if n == 2 then [0xd5]
     else if n == 4 then [0xd6]
     else if n == 8 then [0xd7]
     else if n == 16 then [0xd8]
     else if n <= 0xff then [0xc7, n]
     else if n <= 0xffff then [0xc8] + ToBE(n, 2)
     else [0xc9] + ToBE(n, 4)) + [ty] + s
  }

  // ---- the encoders stay inside the format table, and in its smallest form ----

  lemma SizedIs(lead: byte, n: nat, w: nat, body: seq<byte>)
    requires n < Pow256(w)
    ensures SizedForm([lead] + ToBE(n, w) + body, lead, n, w, body)
    ensures w == 1 ==> ToBE(n, 1) == [n]
  {
    if w == 1 {
      assert ToBE(n / 256, 0) == [];
    }
  }

  lemma EncU64Head(v: nat)
    requires InU64(v)
    ensures IsHead(TInt(v), EncU64(v))
  {
    PowValues();
    if v <= 0xff { SizedIs(0xcc, v, 1, []); }
    else if v <= 0xffff { SizedIs(0xcd, v, 2, []); }
    else if v <= 0xffff_ffff { SizedIs(0xce, v, 4, []); }
    else { SizedIs(0xcf, v, 8, []); }
  }

  lemma EncI64Head(v: int)
    requires InI64(v)
    ensures IsHead(TInt(v), EncI64(v))
  {
    PowValues();
    if v >= 0 { EncU64Head(v); }
    else if v >= -0x80 { SizedIs(0xd0, v + 0x100, 1, []); }
    else if v >= -0x8000 { SizedIs(0xd1, v + 0x1_0000, 2, []); }
    else if v >= -0x8000_0000 { SizedIs(0xd2, v + 0x1_0000_0000, 4, []); }
    else { SizedIs(0xd3, v + 0x1_0000_0000_0000_0000, 8, []); }
  }

  lemma EncStrHead(s: seq<byte>)
    requires FitsU32(s)
    ensures IsHead(TStr(s), EncStr(s))
  {
    PowValues();
    if |s| <= 0xff { SizedIs(0xd9, |s|, 1, s); }
    else if |s| <= 0xffff { SizedIs(0xda, |s|, 2, s); }
    else { SizedIs(0xdb, |s|, 4, s); }
  }

  lemma EncBinHead(s: seq<byte>)
    requires FitsU32(s)
    ensures IsHead(TBin(s), EncBin(s))
  {
    PowValues();
    if |s| <= 0xff { SizedIs(0xc4, |s|, 1, s); }
    else if |s| <= 0xffff { SizedIs(0xc5, |s|, 2, s); }
    else { SizedIs(0xc6, |s|, 4, s); }
  }

  lemma EncExtHead(ty: byte, s: seq<byte>)
    requires FitsU32(s)
    ensures IsHead(TExt(ty, s), EncExt(ty, s))
  {
    PowValues();
    var n, e := |s|, EncExt(ty, s);
    if n == 1 || n == 2 || n == 4 || n == 8 || n == 16 {
      assert e == [e[0], ty] + s;
    } else if n <= 0xff {
      SizedIs(0xc7, n, 1, [ty] + s);
      assert e == [0xc7, n] + ([ty] + s);
    } else if n <= 0xffff {
      SizedIs(0xc8, n, 2, [ty] + s);
      assert e == [0xc8] + ToBE(n, 2) + ([ty] + s);
    } else {
      SizedIs(0xc9, n, 4, [ty] + s);
      assert e == [0xc9] + ToBE(n, 4) + ([ty] + s);
    }
  }

  lemma EncCountHead(n: nat)
    requires n <= 0xffff_ffff
    ensures IsHead(TArray(n), EncArray(n)) && IsHead(TMap(n), EncMap(n))
  {
    PowValues();
    if n <= 0xffff {
      SizedIs(0xdc, n, 2, []);
      SizedIs(0xde, n, 2, []);
    } else {
      SizedIs(0xdd, n, 4, []);
      SizedIs(0xdf, n, 4, []);
    }
  }

  // ---- typed writes ----

  /** One call of the `peios_mp_write_*` family, `write_raw` apart. */
  datatype Write =
    | WNil
    | WBool(b: bool)
    | WInt(v: int)
    | WUint(u: nat)
    | WFloat(raw: seq<byte>)
    | WStr(s: seq<byte>)
    | WBin(s: seq<byte>)
    | WExt(ty: byte, s: seq<byte>)
    | WArray(count: nat)
    | WMap(count: nat)

  /** The argument is a value of the call's C type. */
  predicate Typed(w: Write) {
    match w
    case WInt(v) => InI64(v)
    case WUint(v) => InU64(v)
    case WFloat(raw) => |raw| == 8
    case WArray(n) => n <= 0xffff_ffff
    case WMap(n) => n <= 0xffff_ffff
    case _ => true
  }

  /** The call does not latch an error of its own. */
  predicate Writable(w: Write) {
    match w
    case WStr(s) => ValidUtf8(s) && FitsU32(s)
    case WBin(s) => FitsU32(s)
    case WExt(_, s) => FitsU32(s)
    case _ => true
  }

  function TokenOf(w: Write): Token {
    match w
    case WNil => TNil
    case WBool(b) => TBool(b)
    case WInt(v) => TInt(v)
    case WUint(v) => TInt(v)
    case WFloat(raw) => TFloat(raw)
    case WStr(s) => TStr(s)
    case WBin(s) => TBin(s)
    case WExt(ty, s) => TExt(ty, s)
    case WArray(n) => TArray(n)
    case WMap(n) => TMap(n)
  }

  function Encode(w: Write): seq<byte>
    requires Typed(w) && Writable(w)
  {
    match w
    case WNil => [0xc0]
    case WBool(b) => [if b then 0xc3 else 0xc2]
    case WInt(v) => EncI64(v)
    case WUint(v) => EncU64(v)
    case WFloat(raw) => [0xcb] + raw
    case WStr(s) => EncStr(s)
    case WBin(s) => EncBin(s)
    case WExt(ty, s) => EncExt(ty, s)
    case WArray(n) => EncArray(n)
    case WMap(n) => EncMap(n)
  }

  /** Every typed write emits one of the encodings the specification allows for its head. */
  lemma EncodeIsHead(w: Write)
    requires Typed(w) && Writable(w)
    ensures IsHead(TokenOf(w), Encode(w))
  {
    match w
    case WInt(v) => EncI64Head(v);
    case WUint(v) => EncU64Head(v);
    case WStr(s) => EncStrHead(s);
    case WBin(s) => EncBinHead(s);
    case WExt(ty, s) => EncExtHead(ty, s);
    case WArray(n) => EncCountHead(n);
    case WMap(n) => EncCountHead(n);
    case _ =>
  }

  lemma UintSmallest(v: nat, h: seq<byte>)
    requires InU64(v) && IsHead(TInt(v), h)
    ensures |EncU64(v)| <= |h|
  {
    hide ToBE;
    PowValues();
  }

  lemma NegativeSmallest(v: int, h: seq<byte>)
    requires InI64(v) && v < 0 && IsHead(TInt(v), h)
    ensures |EncI64(v)| <= |h|
  {
    hide ToBE, EncU64;
    PowValues();
  }

  lemma StrSmallest(s: seq<byte>, h: seq<byte>)
    requires FitsU32(s)
    ensures IsHead(TStr(s), h) ==> |EncStr(s)| <= |h|
    ensures IsHead(TBin(s), h) ==> |EncBin(s)| <= |h|
  {
    hide ToBE;
    PowValues();
  }

  lemma ExtSmallest(ty: byte, s: seq<byte>, h: seq<byte>)
    requires FitsU32(s) && IsHead(TExt(ty, s), h)
    ensures |EncExt(ty, s)| <= |h|
  {
    hide ToBE;
    PowValues();
  }

  lemma CountSmallest(n: nat, h: seq<byte>)
    ensures IsHead(TArray(n), h) ==> |EncArray(n)| <= |h|
    ensures IsHead(TMap(n), h) ==> |EncMap(n)| <= |h|
  {
    hide ToBE;
    PowValues();
  }

  /** ... and the shortest one. */
  lemma EncodeIsSmallest(w: Write, h: seq<byte>)
    requires Typed(w) && Writable(w) && IsHead(TokenOf(w), h)
    ensures |Encode(w)| <= |h|
  {
    match w
    case WNil =>
    case WBool(b) =>
    case WInt(v) => if v < 0 { NegativeSmallest(v, h); } else { UintSmallest(v, h); }
    case WUint(v) => UintSmallest(v, h);
    case WFloat(raw) =>
    case WStr(s) => StrSmallest(s, h);
    case WBin(s) => StrSmallest(s, h);
    case WExt(ty, s) => ExtSmallest(ty, s, h);
    case WArray(n) => CountSmallest(n, h);
    case WMap(n) => CountSmallest(n, h);
  }

  // ---- the writer's state ----

  /** The buffer and the latched errno. */
  datatype WriterState = WriterState(buf: seq<byte>, error: int)

  function Apply(st: WriterState, w: Write): WriterState
    requires Typed(w)
  {
    if st.error != 0 then st
    else if !Writable(w) then st.(error := 22)
    else st.(buf := st.buf + Encode(w))
  }

  predicate AllTyped(ws: seq<Write>) {
    forall i :: 0 <= i < |ws| ==> Typed(ws[i])
  }

  predicate AllWritable(ws: seq<Write>) {
    forall i :: 0 <= i < |ws| ==> Writable(ws[i])
  }

  function ApplyAll(st: WriterState, ws: seq<Write>): WriterState
    requires AllTyped(ws)
    decreases |ws|
  {
    if ws == [] then st else ApplyAll(Apply(st, ws[0]), ws[1..])
  }

  function EncodeAll(ws: seq<Write>): seq<byte>
    requires AllTyped(ws) && AllWritable(ws)
  {
    if ws == [] then [] else Encode(ws[0]) + EncodeAll(ws[1..])
  }

  function Tokens(ws: seq<Write>): (ts: seq<Token>)
    ensures |ts| == |ws|
  {
    if ws == [] then [] else [TokenOf(ws[0])] + Tokens(ws[1..])
  }

  /** The error stays clear exactly when every write is acceptable, and the buffer is then their encodings. */
  lemma {:induction false} ErrorIsSticky(st: WriterState, ws: seq<Write>)
    requires AllTyped(ws) && st.error == 0
    ensures ApplyAll(st, ws).error == 0 <==> AllWritable(ws)
    ensures AllWritable(ws) ==> ApplyAll(st, ws).buf == st.buf + EncodeAll(ws)
    decreases |ws|
  {
    hide ValidUtf8, Encode;
    if ws != [] {
      var later := ws[1..];
      assert forall i :: 0 <= i < |later| ==> later[i] == ws[i + 1];
      if Writable(ws[0]) {
        var st' := Apply(st, ws[0]);
        ErrorIsSticky(st', later);
        if AllWritable(ws) {
          assert st'.buf + EncodeAll(later) == st.buf + EncodeAll(ws);
        }
      } else {
        LatchedStays(Apply(st, ws[0]), later);
      }
    }
  }

  lemma {:induction false} LatchedStays(st: WriterState, ws: seq<Write>)
    requires AllTyped(ws) && st.error != 0
    ensures ApplyAll(st, ws) == st
    decreases |ws|
  {
    if ws != [] {
      LatchedStays(st, ws[1..]);
    }
  }

  // ---- trees and their preorder ----

  /** The heads of a value in the order they are written. */
  function Preorder(v: Value): seq<Token>
    requires WellFormed(v)
    decreases v, 1
  {
    match v
    case Leaf(t) => [t]
    case Array(items) => [TArray(|items|)] + PreorderAll(items)
    case Map(items) => [TMap(|items| / 2)] + PreorderAll(items)
  }

  function PreorderAll(vs: seq<Value>): seq<Token>
    requires AllWellFormed(vs)
    decreases vs, 0
  {
    if vs == [] then [] else Preorder(vs[0]) + PreorderAll(vs[1..])
  }

  predicate WellFormed(v: Value)
    decreases v, 1
  {
    HeadOf(v).Some? && match v
    case Leaf(_) => true
    case Array(items) => AllWellFormed(items)
    case Map(items) => AllWellFormed(items)
  }

  predicate AllWellFormed(vs: seq<Value>)
    decreases vs, 0
  {
    vs == [] || (WellFormed(vs[0]) && AllWellFormed(vs[1..]))
  }

  /** Reading the bytes of a run of writes: the first write's head, then the bytes of the others. */
  lemma WrittenUnfold(ws: seq<Write>, n: nat)
    requires AllTyped(ws) && AllWritable(ws) && ws != [] && n > 0
    ensures var t, len, s := TokenOf(ws[0]), |Encode(ws[0])|, EncodeAll(ws[1..]);
      var kids := ParseForest(s, Children(t));
      ParseForest(EncodeAll(ws), n) ==
      if kids.NoForest? then NoForest
      else Cons(Build(t, kids.vs), len + kids.used, ParseForest(s[kids.used..], n - 1))
  {
    hide ReadHead, ParseForest, IsHead, ValidUtf8, Encode;
    var s, w := EncodeAll(ws), ws[0];
    var len := |Encode(w)|;
    EncodeIsHead(w);
    ReadHeadComplete(TokenOf(w), Encode(w), EncodeAll(ws[1..]));
    ForestUnfold(s, n);
    assert s[len..] == EncodeAll(ws[1..]);
    var kids := ParseForest(s[len..], Children(TokenOf(w)));
    if kids.Trees? {
      assert s[len..][kids.used..] == s[len + kids.used..];
    }
  }

  /** `r` was read from the bytes of `ws`, and is the first `k` writes. */
  ghost predicate WasWritten(r: Forest, ws: seq<Write>, k: nat)
    requires AllTyped(ws) && AllWritable(ws)
  {
    && r.Trees? && k <= |ws| && r.used <= |EncodeAll(ws)|
    && AllWellFormed(r.vs) && AllStringsOk(r.vs) && PreorderAll(r.vs) == Tokens(ws[..k])
    && EncodeAll(ws)[r.used..] == EncodeAll(ws[k..])
  }

  /** What is parsed from the bytes of a run of writes was written as its preorder. */
  lemma {:induction false} ParsedWasWritten(ws: seq<Write>, n: nat) returns (k: nat)
    requires AllTyped(ws) && AllWritable(ws) && ParseForest(EncodeAll(ws), n).Trees?
    ensures WasWritten(ParseForest(EncodeAll(ws), n), ws, k)
    decreases |ws|, n
  {
    hide ReadHead, ParseForest, IsHead, Writable, Encode, Build, TokenOf, AllStringsOk, AllWellFormed, Tokens, PreorderAll;
    var s := EncodeAll(ws);
    if n == 0 {
      ForestZero(s);
      NothingWritten(ws);
      k := 0;
    } else if ws == [] {
      ForestUnfold(s, n);
      NothingToRead();
      assert false;
    } else {
      WrittenUnfold(ws, n);
      var t := TokenOf(ws[0]);
      var a := ParsedWasWritten(ws[1..], Children(t));
      var kids := ParseForest(EncodeAll(ws[1..]), Children(t));
      var b := ParsedWasWritten(ws[1..][a..], n - 1);
      k := 1 + a + b;
      WasWrittenCons(ws, kids, a, ParseForest(EncodeAll(ws[1..][a..]), n - 1), b);
    }
  }

  lemma NothingWritten(ws: seq<Write>)
    requires AllTyped(ws) && AllWritable(ws)
    ensures WasWritten(Trees([], 0), ws, 0)
  {
    hide Encode, Writable;
    assert EncodeAll(ws)[0..] == EncodeAll(ws) && ws[0..] == ws && ws[..0] == [];
  }

  lemma WasWrittenCons(ws: seq<Write>, kids: Forest, a: nat, later: Forest, b: nat)
    requires AllTyped(ws) && AllWritable(ws) && ws != []
    requires WasWritten(kids, ws[1..], a) && |kids.vs| == Children(TokenOf(ws[0]))
    requires WasWritten(later, ws[1..][a..], b)
    ensures WasWritten(Cons(Build(TokenOf(ws[0]), kids.vs), |Encode(ws[0])| + kids.used, later), ws, 1 + a + b)
  {
    hide Writable, Encode, EncodeAll, Tokens, PreorderAll, Preorder, AllStringsOk, AllWellFormed, Build, TokenOf;
    var w, s := ws[0], EncodeAll(ws);
    var len, used := |Encode(w)|, |Encode(w)| + kids.used;
    WrittenTokens(ws, kids.vs, a, later.vs, b);
    EncodedHead(ws);
    assert s[used + later.used..] == s[len..][kids.used..][later.used..];
    assert ws[1..][a..][b..] == ws[1 + a + b..];
  }

  lemma EncodedHead(ws: seq<Write>)
    requires AllTyped(ws) && AllWritable(ws) && ws != []
    ensures EncodeAll(ws)[|Encode(ws[0])|..] == EncodeAll(ws[1..])
    ensures |EncodeAll(ws)| == |Encode(ws[0])| + |EncodeAll(ws[1..])|
  {
    hide Encode, Writable;
  }

  lemma WrittenTokens(ws: seq<Write>, kids: seq<Value>, a: nat, later: seq<Value>, b: nat)
    requires ws != [] && 1 + a + b <= |ws| && Writable(ws[0]) && |kids| == Children(TokenOf(ws[0]))
    requires AllWellFormed(kids) && AllStringsOk(kids) && PreorderAll(kids) == Tokens(ws[1..][..a])
    requires AllWellFormed(later) && AllStringsOk(later) && PreorderAll(later) == Tokens(ws[1..][a..][..b])
    ensures var vs := [Build(TokenOf(ws[0]), kids)] + later;
      AllWellFormed(vs) && AllStringsOk(vs) && PreorderAll(vs) == Tokens(ws[..1 + a + b])
  {
    hide ValidUtf8;
    var w, x, y := ws[0], ws[1..][..a], ws[1..][a..][..b];
    BuildPreorder(w, kids);
    assert ([Build(TokenOf(w), kids)] + later)[1..] == later;
    assert ws[..1 + a + b] == ([w] + x) + y;
    TokensAppend([w] + x, y);
    TokensAppend([w], x);
    assert Tokens([w]) == [TokenOf(w)];
  }

  lemma NothingToRead()
    ensures ReadHead([]).NoHead?
  {
  }

  lemma BuildPreorder(w: Write, kids: seq<Value>)
    requires Writable(w) && |kids| == Children(TokenOf(w)) && AllWellFormed(kids) && AllStringsOk(kids)
    ensures var v := Build(TokenOf(w), kids);
      WellFormed(v) && StringsOk(v) && Preorder(v) == [TokenOf(w)] + PreorderAll(kids)
  {
    hide ValidUtf8;
    HeadOfBuild(TokenOf(w), kids);
  }

  lemma {:induction false} TokensAppend(a: seq<Write>, b: seq<Write>)
    ensures Tokens(a + b) == Tokens(a) + Tokens(b)
    decreases |a|
  {
    hide TokenOf;
    var s := a + b;
    if a == [] {
      assert s == b;
    } else {
      TokensAppend(a[1..], b);
      assert s[0] == a[0] && s[1..] == a[1..] + b;
      assert Tokens(s) == [TokenOf(a[0])] + (Tokens(a[1..]) + Tokens(b));
    }
  }

  lemma {:induction false} EncodeAllAppend(a: seq<Write>, b: seq<Write>)
    requires AllTyped(a) && AllWritable(a) && AllTyped(b) && AllWritable(b)
    ensures EncodeAll(a + b) == EncodeAll(a) + EncodeAll(b)
    decreases |a|
  {
    hide ValidUtf8, Encode;
    if a == [] {
      assert a + b == b;
    } else {
      EncodeAllAppend(a[1..], b);
      assert (a + b)[1..] == a[1..] + b;
    }
  }

  lemma TokensSplit(ws: seq<Write>, k: nat)
    requires k <= |ws|
    ensures Tokens(ws[..k]) == Tokens(ws)[..k] && Tokens(ws[k..]) == Tokens(ws)[k..]
  {
    hide Tokens;
    var a, b := Tokens(ws[..k]), Tokens(ws[k..]);
    TokensAppend(ws[..k], ws[k..]);
    assert ws[..k] + ws[k..] == ws;
    assert (a + b)[..k] == a && (a + b)[k..] == b;
  }

  /** Writes in preorder emit an encoding of the tree. */
  lemma {:induction false} WrittenDerivesAll(vs: seq<Value>, ws: seq<Write>)
    requires AllTyped(ws) && AllWritable(ws) && AllWellFormed(vs) && PreorderAll(vs) == Tokens(ws)
    ensures DerivesAll(vs, EncodeAll(ws))
    decreases vs, 1
  {
    hide ValidUtf8, Encode, IsHead, Tokens;
    if vs == [] {
      assert |Tokens(ws)| == 0;
    } else {
      var k := |Preorder(vs[0])|;
      TokensSplit(ws, k);
      WrittenDerives(vs[0], ws[..k]);
      WrittenDerivesAll(vs[1..], ws[k..]);
      EncodeAllAppend(ws[..k], ws[k..]);
      assert ws[..k] + ws[k..] == ws;
      var s, at := EncodeAll(ws), |EncodeAll(ws[..k])|;
      assert s[..at] == EncodeAll(ws[..k]) && s[at..] == EncodeAll(ws[k..]);
    }
  }

  lemma {:induction false} WrittenDerives(v: Value, ws: seq<Write>)
    requires AllTyped(ws) && AllWritable(ws) && WellFormed(v) && Preorder(v) == Tokens(ws)
    ensures Derives(v, EncodeAll(ws))
    decreases v, 0
  {
    hide ValidUtf8, Encode, IsHead;
    var w := ws[0];
    var s, len := EncodeAll(ws), |Encode(w)|;
    EncodeIsHead(w);
    assert s[..len] == Encode(w) && s[len..] == EncodeAll(ws[1..]);
    assert Tokens(ws[1..]) == Tokens(ws)[1..];
    assert Preorder(v)[0] == Tokens(ws)[0] == TokenOf(w);
    assert HeadOf(v) == Some(TokenOf(w));
    match v {
      case Leaf(t) =>
        assert |Tokens(ws[1..])| == 0;
        assert EncodeAll(ws[1..]) == [];
      case Array(items) => WrittenDerivesAll(items, ws[1..]);
      case Map(items) => WrittenDerivesAll(items, ws[1..]);
    }
    assert DerivesAt(v, s, len);
  }

  /** `ws` writes one complete tree, in preorder. */
  ghost predicate WritesTree(ws: seq<Write>, v: Value) {
    WellFormed(v) && Preorder(v) == Tokens(ws)
  }

  /** Reading the bytes back gives the tree that was written, and no other. */
  lemma WriteReadRoundTrip(ws: seq<Write>, v: Value)
    requires AllTyped(ws) && AllWritable(ws)
    ensures WritesTree(ws, v) <==> ParseForest(EncodeAll(ws), 1) == Trees([v], |EncodeAll(ws)|)
    ensures WritesTree(ws, v) ==> StringsOk(v)
  {
    hide ReadHead, ParseForest, IsHead, ValidUtf8, Encode, StringsOk, Preorder, PreorderAll, Tokens;
    var s := EncodeAll(ws);
    if WritesTree(ws, v) {
      WrittenDerives(v, ws);
      ParseIsGrammar(s, v);
    }
    if ParseForest(s, 1) == Trees([v], |s|) {
      var k := ParsedWasWritten(ws, 1);
      assert EncodeAll(ws[k..]) == [];
      EncodedEmpty(ws[k..]);
      assert ws[..k] == ws;
      SingleTree(v);
    }
  }

  lemma EncodedEmpty(ws: seq<Write>)
    requires AllTyped(ws) && AllWritable(ws) && EncodeAll(ws) == []
    ensures ws == []
  {
  }

  lemma SingleTree(v: Value)
    requires AllWellFormed([v])
    ensures WellFormed(v) && PreorderAll([v]) == Preorder(v)
    ensures AllStringsOk([v]) ==> StringsOk(v)
  {
    hide ValidUtf8;
    assert PreorderAll([v][1..]) == [];
  }

  /**
   * The final check passes exactly when the writes were the preorder of one complete tree no deeper
   * than the ceiling.
   */
  lemma WriterExact(ws: seq<Write>)
    requires AllTyped(ws) && AllWritable(ws)
    ensures ValidPayload(EncodeAll(ws), 256) <==> exists v :: WritesTree(ws, v) && Depth(v) <= 256
  {
    hide ReadHead, ParseForest, IsHead, ValidUtf8, Encode, StringsOk, Preorder, PreorderAll, Tokens, WellFormed, Derives;
    var s := EncodeAll(ws);
    if v :| Derives(v, s) && StringsOk(v) && Depth(v) <= 256 {
      ParseIsGrammar(s, v);
      WriteReadRoundTrip(ws, v);
    }
    if v :| WritesTree(ws, v) && Depth(v) <= 256 {
      WriteReadRoundTrip(ws, v);
      ParseIsGrammar(s, v);
    }
  }

  // ---- the writer object ----

  class Writer {
    var buf: seq<byte>
    var error: int

    ghost function State(): WriterState
      reads this
    {
      WriterState(buf, error)
    }

    constructor ()
      ensures State() == WriterState([], 0)
    {
      buf, error := [], 0;
    }

    method Reset()
      modifies this
      ensures State() == WriterState([], 0)
    {
      buf, error := [], 0;
    }

    method WriteNil()
      modifies this
      ensures State() == Apply(old(State()), WNil)
    {
      if error == 0 { buf := buf + [0xc0]; }
    }

    method WriteBool(v: bool)
      modifies this
      ensures State() == Apply(old(State()), WBool(v))
    {
      if error == 0 { buf := buf + [if v then 0xc3 else 0xc2]; }
    }

    method WriteInt(v: int)
      requires InI64(v)
      modifies this
      ensures State() == Apply(old(State()), WInt(v))
    {
      if error == 0 { buf := buf + EncI64(v); }
    }

    method WriteUint(v: nat)
      requires InU64(v)
      modifies this
      ensures State() == Apply(old(State()), WUint(v))
    {
      if error == 0 { buf := buf + EncU64(v); }
    }

    method WriteFloat(raw: seq<byte>)
      requires |raw| == 8
      modifies this
      ensures State() == Apply(old(State()), WFloat(raw))
    {
      if error == 0 { buf := buf + ([0xcb] + raw); }
    }

    method WriteStr(s: seq<byte>)
      modifies this
      ensures State() == Apply(old(State()), WStr(s))
    {
      if error != 0 { return; }
      if !ValidUtf8(s) || !FitsU32(s) { error := EINVAL; }
      else { buf := buf + EncStr(s); }
    }

    method WriteBin(s: seq<byte>)
      modifies this
      ensures State() == Apply(old(State()), WBin(s))
    {
      if error != 0 { return; }
      if !FitsU32(s) { error := EINVAL; } else { buf := buf + EncBin(s); }
    }

    method WriteExt(ty: byte, s: seq<byte>)
      modifies this
      ensures State() == Apply(old(State()), WExt(ty, s))
    {
      if error != 0 { return; }
      if !FitsU32(s) { error := EINVAL; } else { buf := buf + EncExt(ty, s); }
    }

    method WriteArray(n: nat)
      requires n <= 0xffff_ffff
      modifies this
      ensures State() == Apply(old(State()), WArray(n))
    {
      if error == 0 { buf := buf + EncArray(n); }
    }

    method WriteMap(n: nat)
      requires n <= 0xffff_ffff
      modifies this
      ensures State() == Apply(old(State()), WMap(n))
    {
      if error == 0 { buf := buf + EncMap(n); }
    }

    /** The encoded payload, once it is one complete value; otherwise the error latches. */
    method Bytes() returns (r: Option<seq<byte>>)
      modifies this
      ensures buf == old(buf)
      ensures r == (if old(error) == 0 && ValidPayload(buf, 256) then Some(buf) else None)
      ensures error == if r.Some? then 0 else if old(error) != 0 then old(error) else 22
    {
      if error != 0 { return None; }
      var ok := Validate(buf, MAX_DEPTH);
      if !ok {
        error := EINVAL;
        return None;
      }
      r := Some(buf);
    }
  }
}
