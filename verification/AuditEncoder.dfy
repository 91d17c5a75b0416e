/** The audit-context encoder, and exactly when it succeeds. */
module AuditEncoder {
  import opened Bytes
  import opened Utf8
  import opened MsgPack
  import opened MsgPackGrammar
  import opened MsgPackCursor
  import opened MsgPackWriter
  import opened AuditContext

  const AUDIT_STR := 0
  const AUDIT_UINT := 1
  const AUDIT_INT := 2
  const AUDIT_BOOL := 3
  const AUDIT_BIN := 4

  /** One identifying field: `valueType` selects the scalar or the bytes. */
  datatype Field = Field(key: seq<byte>, valueType: nat, scalar: nat, bytes: seq<byte>)

  // ---- the encoder's own primitives ----

  function AuditMap(n: nat): Option<seq<byte>> {
    if n <= 15 then Some([0x80 + n]) else if n < 0x1_0000 then Some([0xde] + ToBE(n, 2)) else None
  }

  /** A `str`, or a `bin`, in its smallest form; none past 16 bits of length. */
  function AuditBlob(s: seq<byte>, bin: bool): Option<seq<byte>> {
    var n := |s|;
    if !bin && n <= 31 then Some([0xa0 + n] + s)
    else if n < 0x100 then Some([if bin then 0xc4 else 0xd9, n] + s)
    else if n < 0x1_0000 then Some([if bin then 0xc5 else 0xda] + ToBE(n, 2) + s)
    else None
  }

  function AuditUint(v: nat): seq<byte>
    requires v < 0x1_0000_0000_0000_0000
  {
    if v < 0x80 then [v]
    else if v < 0x100 then [0xcc, v]
    else if v < 0x1_0000 then [0xcd] + ToBE(v, 2)
    else if v < 0x1_0000_0000 then [0xce] + ToBE(v, 4)
    else [0xcf] + ToBE(v, 8)
  }

  function AuditInt(v: int): seq<byte>
    requires InI64(v)
  {
    if v >= 0 then AuditUint(v)
    else if v >= -32 then [v + 0x100]
    else if -0x80 <= v < 0x80 then [0xd0, v + 0x100]
    else if -0x8000 <= v < 0x8000 then [0xd1] + ToBE(v + 0x1_0000, 2)
    else if -0x8000_0000 <= v < 0x8000_0000 then [0xd2] + ToBE(v + 0x1_0000_0000, 4)
    else [0xd3] + ToBE(v + 0x1_0000_0000_0000_0000, 8)
  }

  /** The two encoders agree wherever this one succeeds. */
  lemma EncodersAgree(n: nat, s: seq<byte>, u: nat, v: int)
    requires InU64(u) && InI64(v)
    ensures AuditMap(n) == if n < 0x1_0000 then Some(EncMap(n)) else None
    ensures AuditBlob(s, false) == if |s| < 0x1_0000 then Some(EncStr(s)) else None
    ensures AuditBlob(s, true) == if |s| < 0x1_0000 then Some(EncBin(s)) else None
    ensures AuditUint(u) == EncU64(u) && AuditInt(v) == EncI64(v)
  {
  }

  // ---- the rules ----

  /** `segment_arg`: a name of at most the limit that is one segment. */
  predicate SegmentArg(s: seq<byte>) {
    |s| <= 4096 && Segment(s)
  }

  /** A string (0), unsigned (1), signed (2), boolean (3) or byte string (4) within its limits. */
  predicate ValueOk(f: Field) {
    match f.valueType
    case 0 => |f.bytes| <= 4096 && ValidUtf8(f.bytes)
    case 1 => true
    case 2 => true
    case 3 => f.scalar <= 1
    case 4 => |f.bytes| <= 4096
    case _ => false
  }

  /** Names are segments and distinct, and every value is in one of the five wire forms. */
  predicate FieldsOk(fields: seq<Field>) {
    && (forall i :: 0 <= i < |fields| ==> SegmentArg(fields[i].key) && ValueOk(fields[i]))
    && (forall i, j :: 0 <= i < j < |fields| ==> fields[i].key != fields[j].key)
  }

  predicate ScalarsTyped(fields: seq<Field>) {
    forall i :: 0 <= i < |fields| ==> InU64(fields[i].scalar)
  }

  // ---- the same context as writes and as a tree ----

  function ValueWrite(f: Field): Write
    requires InU64(f.scalar)
  {
    if f.valueType == AUDIT_UINT then WUint(f.scalar)
    else if f.valueType == AUDIT_INT then WInt(Signed(f.scalar, 0x1_0000_0000_0000_0000))
    else if f.valueType == AUDIT_BOOL then WBool(f.scalar == 1)
    else if f.valueType == AUDIT_STR then WStr(f.bytes)
    else WBin(f.bytes)
  }

  function FieldWrites(fields: seq<Field>): seq<Write>
    requires ScalarsTyped(fields)
  {
    if fields == [] then []
    else FieldWrites(fields[..|fields| - 1]) + [WStr(fields[|fields| - 1].key), ValueWrite(fields[|fields| - 1])]
  }

  function Prelude(kind: seq<byte>, n: nat): seq<Write> {
    if n == 0 then [WMap(1), WStr(KIND), WStr(kind)] else [WMap(2), WStr(KIND), WStr(kind), WStr(kind), WMap(n)]
  }

  /** The writes a MessagePack writer would make for the context. */
  function ContextWrites(kind: seq<byte>, fields: seq<Field>): seq<Write>
    requires ScalarsTyped(fields)
  {
    Prelude(kind, |fields|) + FieldWrites(fields)
  }

  function FieldItems(fields: seq<Field>): (items: seq<Value>)
    requires ScalarsTyped(fields)
    ensures |items| == 2 * |fields|
  {
    if fields == [] then []
    else
      var f := fields[|fields| - 1];
      FieldItems(fields[..|fields| - 1]) + [Leaf(TStr(f.key)), Leaf(TokenOf(ValueWrite(f)))]
  }

  function ContextTree(kind: seq<byte>, fields: seq<Field>): Value
    requires ScalarsTyped(fields)
  {
    if fields == [] then Map([Leaf(TStr(KIND)), Leaf(TStr(kind))])
    else Map([Leaf(TStr(KIND)), Leaf(TStr(kind)), Leaf(TStr(kind)), Map(FieldItems(fields))])
  }

  predicate EachOk(fields: seq<Field>) {
    forall i :: 0 <= i < |fields| ==> SegmentArg(fields[i].key) && ValueOk(fields[i])
  }

  lemma {:induction false} FieldWritesOk(fields: seq<Field>)
    requires ScalarsTyped(fields) && EachOk(fields)
    ensures AllTyped(FieldWrites(fields)) && AllWritable(FieldWrites(fields))
    decreases |fields|
  {
    hide ValidUtf8, Segment;
    if fields != [] {
      var f := fields[|fields| - 1];
      FieldWritesOk(fields[..|fields| - 1]);
      SegmentIsUtf8(f.key);
      assert Writable(WStr(f.key)) && Writable(ValueWrite(f));
    }
  }

  lemma PreludeOk(kind: seq<byte>, n: nat)
    requires SegmentArg(kind) && n <= 0xffff_ffff
    ensures AllTyped(Prelude(kind, n)) && AllWritable(Prelude(kind, n))
  {
    hide ValidUtf8, Segment;
    SegmentIsUtf8(kind);
    AsciiIsUtf8(KIND);
  }

  lemma PreorderUnfold(vs: seq<Value>)
    ensures vs == [] ==> AllWellFormed(vs) && PreorderAll(vs) == []
    ensures vs != [] ==> (AllWellFormed(vs) <==> WellFormed(vs[0]) && AllWellFormed(vs[1..]))
    ensures vs != [] && AllWellFormed(vs) ==> PreorderAll(vs) == Preorder(vs[0]) + PreorderAll(vs[1..])
  {
    hide Preorder, WellFormed;
  }

  lemma {:induction false} PreorderAppend(a: seq<Value>, b: seq<Value>)
    requires AllWellFormed(a) && AllWellFormed(b)
    ensures AllWellFormed(a + b) && PreorderAll(a + b) == PreorderAll(a) + PreorderAll(b)
    decreases |a|
  {
    hide Preorder, WellFormed, PreorderAll, AllWellFormed;
    var s := a + b;
    PreorderUnfold(a);
    if a == [] {
      assert s == b;
    } else {
      PreorderAppend(a[1..], b);
      PreorderUnfold(s);
      assert s[0] == a[0] && s[1..] == a[1..] + b;
      var x, y, z := Preorder(a[0]), PreorderAll(a[1..]), PreorderAll(b);
      assert x + (y + z) == x + y + z;
    }
  }

  /** Two values: each property of the pair from those of its parts. */
  lemma PairPreorder(v: Value, w: Value)
    requires WellFormed(v) && WellFormed(w)
    ensures var vs := [v, w];
      && AllWellFormed(vs) && PreorderAll(vs) == Preorder(v) + Preorder(w)
      && MaxDepth(vs) == (if Depth(v) > Depth(w) then Depth(v) else Depth(w))
      && (AllStringsOk(vs) <==> StringsOk(v) && StringsOk(w))
  {
    hide Preorder, StringsOk, WellFormed, Depth;
    assert [v] + [w] == [v, w] && [v][1..] == [] && [w][1..] == [];
    assert AllWellFormed([v]) && AllWellFormed([w]);
    assert PreorderAll([v]) == Preorder(v) + [] && PreorderAll([w]) == Preorder(w) + [];
    PreorderAppend([v], [w]);
    StringsOkAppend([v], [w]);
    MaxDepthAppend([v], [w]);
    SingleStrings(v);
    SingleStrings(w);
    SingleDepth(v);
    SingleDepth(w);
  }

  lemma LeavesPreorder(a: Token, b: Token)
    requires !a.TArray? && !a.TMap? && !b.TArray? && !b.TMap?
    ensures var vs := [Leaf(a), Leaf(b)];
      AllWellFormed(vs) && PreorderAll(vs) == [a, b] && MaxDepth(vs) == 1
      && (HeadOk(a) && HeadOk(b) ==> AllStringsOk(vs))
  {
    hide ValidUtf8;
    PairPreorder(Leaf(a), Leaf(b));
  }

  lemma {:induction false} FieldItemsWritten(fields: seq<Field>)
    requires ScalarsTyped(fields) && EachOk(fields)
    ensures var items := FieldItems(fields);
      && AllWellFormed(items) && PreorderAll(items) == Tokens(FieldWrites(fields))
      && AllStringsOk(items) && MaxDepth(items) <= 1
      && forall i :: 0 <= i < |items| && i % 2 == 0 ==> SegmentStr(items[i])
    decreases |fields|
  {
    hide ValidUtf8, Segment, Tokens, AllWellFormed, PreorderAll, AllStringsOk, MaxDepth, ValueWrite, ValueOk;
    if fields != [] {
      var init, f := fields[..|fields| - 1], fields[|fields| - 1];
      FieldItemsWritten(init);
      var a, b := TStr(f.key), TokenOf(ValueWrite(f));
      var pair := [Leaf(a), Leaf(b)];
      var writes := [WStr(f.key), ValueWrite(f)];
      SegmentIsUtf8(f.key);
      ValueLeaf(f);
      LeavesPreorder(a, b);
      PreorderAppend(FieldItems(init), pair);
      StringsOkAppend(FieldItems(init), pair);
      MaxDepthAppend(FieldItems(init), pair);
      TokensAppend(FieldWrites(init), writes);
      TwoTokens(writes);
      assert SegmentStr(pair[0]);
    } else {
      NoTokens();
      NoItems();
    }
  }

  /** A field's value is a leaf, a string only if it is UTF-8. */
  lemma ValueLeaf(f: Field)
    requires InU64(f.scalar) && ValueOk(f)
    ensures var t := TokenOf(ValueWrite(f)); !t.TArray? && !t.TMap? && HeadOk(t)
  {
    hide ValidUtf8;
  }

  lemma NoItems()
    ensures AllWellFormed([]) && PreorderAll([]) == [] && AllStringsOk([]) && MaxDepth([]) == 0
  {
  }

  lemma TwoTokens(ws: seq<Write>)
    requires |ws| == 2
    ensures Tokens(ws) == [TokenOf(ws[0]), TokenOf(ws[1])]
  {
    assert Tokens(ws[1..][1..]) == [];
  }

  lemma NoTokens()
    ensures Tokens([]) == []
  {
  }

  lemma PreludeTokens(kind: seq<byte>, n: nat)
    ensures Tokens(Prelude(kind, n)) ==
      if n == 0 then [TMap(1), TStr(KIND), TStr(kind)] else [TMap(2), TStr(KIND), TStr(kind), TStr(kind), TMap(n)]
  {
    var ws := Prelude(kind, n);
    TokensAppend([ws[0]], ws[1..]);
    assert ws == [ws[0]] + ws[1..];
    TwoTokens(ws[1..][..2]);
    TokensAppend(ws[1..][..2], ws[1..][2..]);
    assert ws[1..] == ws[1..][..2] + ws[1..][2..];
    if n > 0 {
      TwoTokens(ws[1..][2..]);
    }
  }

  lemma MapPreorder(items: seq<Value>)
    requires AllWellFormed(items) && |items| % 2 == 0
    ensures var v := Map(items);
      && WellFormed(v) && Preorder(v) == [TMap(|items| / 2)] + PreorderAll(items)
      && Depth(v) == 1 + MaxDepth(items) && (StringsOk(v) <==> AllStringsOk(items))
  {
    hide ValidUtf8;
  }

  /** The context's tree, seen as the writer's reading of it. */
  lemma TreeIsWritten(kind: seq<byte>, fields: seq<Field>)
    requires SegmentArg(kind) && ScalarsTyped(fields) && EachOk(fields)
    ensures var v := ContextTree(kind, fields);
      WritesTree(ContextWrites(kind, fields), v) && StringsOk(v) && Depth(v) <= 3
  {
    hide ValidUtf8, Segment, Tokens, Preorder, PreorderAll, AllStringsOk, StringsOk, MaxDepth, Depth, AllWellFormed, WellFormed, Prelude, FieldWrites, FieldItems;
    var items := FieldItems(fields);
    FieldItemsWritten(fields);
    PreludeTokens(kind, |fields|);
    TokensAppend(Prelude(kind, |fields|), FieldWrites(fields));
    SegmentIsUtf8(kind);
    AsciiIsUtf8(KIND);
    LeavesPreorder(TStr(KIND), TStr(kind));
    var first := [Leaf(TStr(KIND)), Leaf(TStr(kind))];
    if fields == [] {
      NoFields();
      MapPreorder(first);
    } else {
      var second := [Leaf(TStr(kind)), Map(items)];
      BodyPreorder(kind, items);
      PreorderAppend(first, second);
      StringsOkAppend(first, second);
      MaxDepthAppend(first, second);
      assert first + second == [Leaf(TStr(KIND)), Leaf(TStr(kind)), Leaf(TStr(kind)), Map(items)];
      MapPreorder(first + second);
    }
  }

  lemma NoFields()
    ensures Tokens(FieldWrites([])) == []
  {
  }

  lemma BodyPreorder(kind: seq<byte>, items: seq<Value>)
    requires AllWellFormed(items) && AllStringsOk(items) && MaxDepth(items) <= 1 && |items| % 2 == 0 && ValidUtf8(kind)
    ensures var vs := [Leaf(TStr(kind)), Map(items)];
      && AllWellFormed(vs) && AllStringsOk(vs) && MaxDepth(vs) <= 2
      && PreorderAll(vs) == [TStr(kind), TMap(|items| / 2)] + PreorderAll(items)
  {
    hide ValidUtf8;
    PairPreorder(Leaf(TStr(kind)), Map(items));
  }

  /** Of contexts that follow the field rules, only the kind `kind` breaks the kernel's. */
  lemma TreeIsContext(kind: seq<byte>, fields: seq<Field>)
    requires SegmentArg(kind) && ScalarsTyped(fields) && EachOk(fields)
    ensures ContextOk(ContextTree(kind, fields)) <==> fields == [] || kind != KIND
  {
    hide ValidUtf8, Segment;
    FieldItemsWritten(fields);
    SegmentIsUtf8(kind);
    AsciiIsUtf8(KIND);
  }

  /** The bytes of a context whose names and values follow the field rules. */
  function Layout(kind: seq<byte>, fields: seq<Field>): seq<byte>
    requires SegmentArg(kind) && ScalarsTyped(fields) && EachOk(fields) && |fields| < 0x1_0000
  {
    PreludeOk(kind, |fields|);
    FieldWritesOk(fields);
    EncodeAll(ContextWrites(kind, fields))
  }

  /** The value a field stands for: a string (0), unsigned (1), signed (2), boolean (3) or bytes (4). */
  predicate Says(t: Token, f: Field) {
    match f.valueType
    case 0 => t == TStr(f.bytes)
    case 1 => t == TInt(f.scalar)
    case 2 => t == TInt(if f.scalar < 0x8000_0000_0000_0000 then f.scalar else f.scalar - 0x1_0000_0000_0000_0000)
    case 3 => f.scalar <= 1 && t == TBool(f.scalar == 1)
    case 4 => t == TBin(f.bytes)
    case _ => false
  }

  predicate SaysFields(items: seq<Value>, fields: seq<Field>) {
    && |items| == 2 * |fields|
    && forall i :: 0 <= i < |fields| ==>
      && items[2 * i] == Leaf(TStr(fields[i].key))
      && items[2 * i + 1].Leaf? && Says(items[2 * i + 1].t, fields[i])
  }

  /** The map `{"kind": kind}` or, with fields, `{"kind": kind, kind: {key: value, ...}}`, each field in its place. */
  predicate SaysContext(v: Value, kind: seq<byte>, fields: seq<Field>) {
    && v.Map? && |v.items| == (if fields == [] then 2 else 4)
    && v.items[0] == Leaf(TStr([0x6b, 0x69, 0x6e, 0x64])) && v.items[1] == Leaf(TStr(kind))
    && (fields != [] ==> v.items[2] == Leaf(TStr(kind)) && v.items[3].Map? && SaysFields(v.items[3].items, fields))
  }

  lemma SaysExact(t: Token, f: Field)
    requires InU64(f.scalar) && ValueOk(f)
    ensures Says(t, f) <==> t == TokenOf(ValueWrite(f))
  {
    hide ValidUtf8;
  }

  lemma {:induction false} FieldsSaid(items: seq<Value>, fields: seq<Field>)
    requires ScalarsTyped(fields) && EachOk(fields)
    ensures SaysFields(items, fields) <==> items == FieldItems(fields)
    decreases |fields|
  {
    hide Says, ValueWrite, ValueOk, SegmentArg, TokenOf;
    if fields != [] && |items| == 2 * |fields| {
      var n := |fields| - 1;
      var init, f := fields[..n], fields[n];
      assert EachOk(init);
      FieldsSaid(items[..2 * n], init);
      LastSaid(items, fields);
      if items[2 * n + 1].Leaf? {
        SaysExact(items[2 * n + 1].t, f);
      }
      assert items == items[..2 * n] + [items[2 * n], items[2 * n + 1]];
      var pair := [Leaf(TStr(f.key)), Leaf(TokenOf(ValueWrite(f)))];
      assert FieldItems(fields) == FieldItems(init) + pair;
      SamePair(items[..2 * n], FieldItems(init), items[2 * n], items[2 * n + 1], pair[0], pair[1]);
    }
  }

  lemma SamePair(a: seq<Value>, b: seq<Value>, x: Value, y: Value, x': Value, y': Value)
    requires |a| == |b|
    ensures a + [x, y] == b + [x', y'] <==> a == b && x == x' && y == y'
  {
    if a + [x, y] == b + [x', y'] {
      var s, t := a + [x, y], b + [x', y'];
      assert a == s[..|a|] && b == t[..|a|];
      assert s[|a|] == x && t[|a|] == x' && s[|a| + 1] == y && t[|a| + 1] == y';
    }
  }

  lemma LastSaid(items: seq<Value>, fields: seq<Field>)
    requires fields != [] && |items| == 2 * |fields|
    ensures var n := |fields| - 1;
      SaysFields(items, fields) <==>
      && SaysFields(items[..2 * n], fields[..n])
      && items[2 * n] == Leaf(TStr(fields[n].key)) && items[2 * n + 1].Leaf? && Says(items[2 * n + 1].t, fields[n])
  {
    hide Says;
    var n := |fields| - 1;
    var a, b := items[..2 * n], fields[..n];
    assert forall i :: 0 <= i < n ==> b[i] == fields[i] && a[2 * i] == items[2 * i] && a[2 * i + 1] == items[2 * i + 1];
  }

  lemma ContextSaid(v: Value, kind: seq<byte>, fields: seq<Field>)
    requires ScalarsTyped(fields) && EachOk(fields)
    ensures SaysContext(v, kind, fields) <==> v == ContextTree(kind, fields)
  {
    hide SaysFields, FieldItems;
    if v.Map? && |v.items| == 4 && v.items[3].Map? {
      FieldsSaid(v.items[3].items, fields);
      assert v.items == [v.items[0], v.items[1], v.items[2], v.items[3]];
    } else if v.Map? && |v.items| == 2 {
      assert v.items == [v.items[0], v.items[1]];
    }
  }

  /** What the encoder writes says exactly the kind and, in order, each field's key and value. */
  lemma LayoutSays(kind: seq<byte>, fields: seq<Field>, v: Value)
    requires SegmentArg(kind) && ScalarsTyped(fields) && EachOk(fields) && |fields| < 0x1_0000
    ensures Derives(v, Layout(kind, fields)) <==> SaysContext(v, kind, fields)
  {
    hide ValidUtf8, Segment, Derives, StringsOk, Depth, WritesTree, ParseForest, ContextTree, Encode, SaysContext, EachOk,
         FieldWrites, EncodeAll;
    PreludeOk(kind, |fields|);
    FieldWritesOk(fields);
    var ws, tree := ContextWrites(kind, fields), ContextTree(kind, fields);
    TreeIsWritten(kind, fields);
    WriteReadRoundTrip(ws, tree);
    ParseIsGrammar(EncodeAll(ws), tree);
    ContextSaid(v, kind, fields);
    if Derives(v, EncodeAll(ws)) {
      GrammarUnambiguous(EncodeAll(ws), v, tree);
    }
  }

  /** The kernel accepts those bytes exactly when they fit and, with fields, the kind is not `kind`. */
  lemma LayoutAcceptable(kind: seq<byte>, fields: seq<Field>)
    requires SegmentArg(kind) && ScalarsTyped(fields) && EachOk(fields) && |fields| < 0x1_0000
    ensures var s := Layout(kind, fields);
      Acceptable(s) <==> |s| <= 4096 && (fields == [] || kind != KIND)
  {
    hide ValidUtf8, Segment, ContextOk, Derives, StringsOk, Depth, WritesTree, ParseForest, ContextTree, Encode;
    PreludeOk(kind, |fields|);
    FieldWritesOk(fields);
    var ws := ContextWrites(kind, fields);
    var s, v := EncodeAll(ws), ContextTree(kind, fields);
    TreeIsWritten(kind, fields);
    WriteReadRoundTrip(ws, v);
    ParseIsGrammar(s, v);
    TreeIsContext(kind, fields);
    assert ValidPayload(s, MAX_NESTING);
    assert s != [] by {
      if s == [] { EncodedEmpty(ws); }
    }
    if w :| Derives(w, s) && ContextOk(w) {
      GrammarUnambiguous(s, v, w);
    }
  }

  /** Without fields the encoder does not check itself: only the kind's length decides. */
  lemma NoFieldLength(kind: seq<byte>)
    requires SegmentArg(kind)
    ensures |Layout(kind, [])| <= 4096 <==> |kind| <= 4087
  {
    hide ValidUtf8, Segment;
    PreludeOk(kind, 0);
    var ws := Prelude(kind, 0);
    assert ContextWrites(kind, []) == ws;
    assert ws[1..] == [WStr(KIND), WStr(kind)] && ws[1..][1..] == [WStr(kind)] && ws[1..][1..][1..] == [];
    assert EncodeAll(ws[1..][1..]) == EncStr(kind) + [];
    assert EncodeAll(ws[1..]) == EncStr(KIND) + EncodeAll(ws[1..][1..]);
  }

  /** A kind one byte too long: one letter, 4088 times. */
  const LONG_KIND: seq<byte> := seq(4088, _ => 0x61)

  lemma {:induction false} LettersAreTail(s: seq<byte>)
    requires forall i :: 0 <= i < |s| ==> s[i] == 0x61
    ensures SegmentTail(s)
    decreases |s|
  {
    if s != [] {
      LettersAreTail(s[1..]);
    }
  }

  /** It is a segment the encoder takes and encodes, and what comes out is no context. */
  lemma LongKindIsEncoded()
    ensures SegmentArg(LONG_KIND) && ScalarsTyped([]) && EachOk([])
    ensures !Acceptable(Layout(LONG_KIND, []))
  {
    LettersAreTail(LONG_KIND[1..]);
    hide Segment, ValidUtf8, Acceptable, Layout;
    LayoutAcceptable(LONG_KIND, []);
    NoFieldLength(LONG_KIND);
  }

  /** The encoded value of a field, or nothing if its type or its bytes are not admitted. */
  function FieldValue(f: Field): (r: Option<seq<byte>>)
    requires InU64(f.scalar)
    ensures r == if ValueOk(f) then Some(Encode(ValueWrite(f))) else None
  {
    if f.valueType == AUDIT_UINT then Some(AuditUint(f.scalar))
    else if f.valueType == AUDIT_INT then Some(AuditInt(Signed(f.scalar, 0x1_0000_0000_0000_0000)))
    else if f.valueType == AUDIT_BOOL then
      if f.scalar == 0 then Some([0xc2]) else if f.scalar == 1 then Some([0xc3]) else None
    else if f.valueType == AUDIT_STR || f.valueType == AUDIT_BIN then
      if |f.bytes| > MAX_LEN || (f.valueType == AUDIT_STR && !ValidUtf8(f.bytes)) then None
      else AuditBlob(f.bytes, f.valueType == AUDIT_BIN)
    else None
  }

  /** One more field after a well-formed prefix. */
  lemma LayoutGrows(kind: seq<byte>, n: nat, fields: seq<Field>, i: nat)
    requires SegmentArg(kind) && n < 0x1_0000 && ScalarsTyped(fields) && i < |fields| && EachOk(fields[..i + 1])
    ensures AllTyped(Prelude(kind, n) + FieldWrites(fields[..i])) && AllWritable(Prelude(kind, n) + FieldWrites(fields[..i]))
    ensures AllTyped(Prelude(kind, n) + FieldWrites(fields[..i + 1])) && AllWritable(Prelude(kind, n) + FieldWrites(fields[..i + 1]))
    ensures var f := fields[i];
      && AllTyped([WStr(f.key), ValueWrite(f)]) && AllWritable([WStr(f.key), ValueWrite(f)])
      && EncodeAll(Prelude(kind, n) + FieldWrites(fields[..i + 1])) ==
         EncodeAll(Prelude(kind, n) + FieldWrites(fields[..i])) + EncStr(f.key) + Encode(ValueWrite(f))
  {
    hide ValidUtf8, Segment, Prelude, ValueWrite, ValueOk, EncodeAll;
    var f, pre := fields[i], fields[..i];
    assert fields[..i + 1][..i] == pre && EachOk(pre);
    PreludeOk(kind, n);
    FieldWritesOk(pre);
    PairEncodes(f);
    var pair := [WStr(f.key), ValueWrite(f)];
    var a := Prelude(kind, n) + FieldWrites(pre);
    EncodeAllAppend(a, pair);
    assert Prelude(kind, n) + FieldWrites(fields[..i + 1]) == a + pair;
  }

  lemma PairEncodes(f: Field)
    requires SegmentArg(f.key) && InU64(f.scalar) && ValueOk(f)
    ensures var pair := [WStr(f.key), ValueWrite(f)];
      AllTyped(pair) && AllWritable(pair) && EncodeAll(pair) == EncStr(f.key) + Encode(ValueWrite(f))
  {
    hide ValidUtf8, Segment;
    SegmentIsUtf8(f.key);
    var pair := [WStr(f.key), ValueWrite(f)];
    assert Writable(pair[0]) && Writable(pair[1]);
    assert pair[1..] == [ValueWrite(f)] && pair[1..][1..] == [];
    assert EncodeAll(pair[1..]) == Encode(ValueWrite(f)) + [];
  }

  lemma PreludeBytes(kind: seq<byte>, n: nat)
    requires SegmentArg(kind) && n < 0x1_0000
    ensures AllTyped(Prelude(kind, n)) && AllWritable(Prelude(kind, n))
    ensures EncodeAll(Prelude(kind, n)) ==
      EncMap(if n == 0 then 1 else 2) + EncStr(KIND) + EncStr(kind) + (if n == 0 then [] else EncStr(kind) + EncMap(n))
  {
    hide EncodeAll, EncStr, EncMap, Segment, ValidUtf8, Encode;
    PreludeOk(kind, n);
    var ws := Prelude(kind, n);
    var first, name, word := WMap(if n == 0 then 1 else 2), WStr(KIND), WStr(kind);
    assert Typed(ws[0]) && Writable(ws[0]) && Writable(ws[1]) && Writable(ws[2]);
    EncodeOf(first, name, word);
    EncodeTwo(first, name);
    EncodeTwo(word, WMap(n));
    EncodeAllAppend([first, name], [word]);
    assert [first, name] + [word] == [first, name, word];
    if n > 0 {
      EncodeOf(word, WMap(n), word);
      EncodeAllAppend([first, name, word], [word, WMap(n)]);
      assert ws == [first, name, word] + [word, WMap(n)];
    } else {
      assert ws == [first, name, word];
      var e := EncMap(1) + EncStr(KIND) + EncStr(kind);
      assert e + [] == e;
    }
  }

  /** What each write of a context encodes to. */
  lemma EncodeOf(a: Write, b: Write, c: Write)
    requires Typed(a) && Writable(a) && Typed(b) && Writable(b) && Typed(c) && Writable(c)
    ensures EncodeAll([c]) == Encode(c)
    ensures a.WMap? ==> Encode(a) == EncMap(a.count)
    ensures b.WMap? ==> Encode(b) == EncMap(b.count)
    ensures b.WStr? ==> Encode(b) == EncStr(b.s)
    ensures c.WStr? ==> Encode(c) == EncStr(c.s)
    ensures a.WStr? ==> Encode(a) == EncStr(a.s)
  {
    hide EncStr, EncMap, ValidUtf8;
    assert [c][1..] == [];
    assert EncodeAll([c]) == Encode(c) + [];
  }

  lemma EncodeTwo(a: Write, b: Write)
    requires Typed(a) && Writable(a) && Typed(b) && Writable(b)
    ensures EncodeAll([a, b]) == Encode(a) + Encode(b)
  {
    hide Encode, ValidUtf8;
    assert [a, b][1..] == [b] && [b][1..] == [];
    assert EncodeAll([b]) == Encode(b) + [];
  }

  /** Everything a caller must get right, except the limit. */
  predicate WellFormedContext(kind: seq<byte>, fields: seq<Field>) {
    SegmentArg(kind) && kind != KIND && FieldsOk(fields) && |fields| < 0x1_0000
  }

  lemma TotalTooLong(kind: seq<byte>, fields: seq<Field>, i: nat)
    requires SegmentArg(kind) && ScalarsTyped(fields) && i <= |fields| < 0x1_0000 && EachOk(fields)
    requires AllTyped(Prelude(kind, |fields|) + FieldWrites(fields[..i]))
    requires AllWritable(Prelude(kind, |fields|) + FieldWrites(fields[..i]))
    ensures |EncodeAll(Prelude(kind, |fields|) + FieldWrites(fields[..i]))| <= |Layout(kind, fields)|
    decreases |fields| - i
  {
    hide ValidUtf8, Segment, Encode, EncStr;
    if i == |fields| {
      assert fields[..i] == fields;
    } else {
      LayoutGrows(kind, |fields|, fields, i);
      TotalTooLong(kind, fields, i + 1);
    }
  }

  lemma LayoutIs(kind: seq<byte>, fields: seq<Field>)
    requires SegmentArg(kind) && ScalarsTyped(fields) && EachOk(fields) && |fields| < 0x1_0000
    ensures var ws := Prelude(kind, |fields|) + FieldWrites(fields);
      AllTyped(ws) && AllWritable(ws) && Layout(kind, fields) == EncodeAll(ws)
  {
    hide Segment, ValidUtf8, EncodeAll, FieldWrites, Prelude;
    PreludeOk(kind, |fields|);
    FieldWritesOk(fields);
  }

  lemma PreludeAlone(kind: seq<byte>, n: nat)
    ensures Prelude(kind, n) + FieldWrites([]) == Prelude(kind, n)
  {
    hide Prelude;
  }

  lemma FieldsEach(fields: seq<Field>)
    ensures FieldsOk(fields) ==> EachOk(fields)
    ensures FieldsOk([])
  {
    hide SegmentArg, ValueOk;
  }

  lemma AcceptableFits(s: seq<byte>)
    requires Acceptable(s)
    ensures |s| <= MAX_LEN
  {
  }

  /** The loop over the fields, which stops at a bad one and at the limit. */
  method AppendFields(kind: seq<byte>, fields: seq<Field>, front: seq<byte>) returns (ok: bool, buf: seq<byte>)
    requires SegmentArg(kind) && ScalarsTyped(fields) && 0 < |fields| < 0x1_0000
    requires AllTyped(Prelude(kind, |fields|)) && AllWritable(Prelude(kind, |fields|))
    requires front == EncodeAll(Prelude(kind, |fields|))
    ensures ok <==> FieldsOk(fields) && (FieldsEach(fields); |Layout(kind, fields)| <= MAX_LEN)
    ensures ok ==> FieldsOk(fields) && (FieldsEach(fields); buf == Layout(kind, fields))
  {
    hide Segment, ValidUtf8, Encode, EncStr, AuditBlob, EncodeAll, FieldWrites, Prelude, AllTyped, AllWritable, ValueOk,
         FieldsOk, EachOk, Layout;
    var n := |fields|;
    buf := front;
    PreludeAlone(kind, n);
    FieldsEach(fields);
    assert fields[..0] == [];
    var i := 0;
    while i < n
      invariant i <= n && FieldsOk(fields[..i]) && (i > 0 ==> |buf| <= MAX_LEN)
      invariant AllTyped(Prelude(kind, n) + FieldWrites(fields[..i])) && AllWritable(Prelude(kind, n) + FieldWrites(fields[..i]))
      invariant buf == EncodeAll(Prelude(kind, n) + FieldWrites(fields[..i]))
    {
      var f := fields[i];
      FieldsMore(fields, i);
      var named := IsSegment(f.key);
      if |f.key| > MAX_LEN || !named { return false, buf; }
      var unseen := KeyIsNew(fields, i);
      if !unseen { return false, buf; }
      EncodersAgree(0, f.key, 0, 0);
      var value := FieldValue(f);
      if value.None? { return false, buf; }
      LayoutGrows(kind, n, fields, i);
      buf := buf + AuditBlob(f.key, false).value + value.value;
      if |buf| > MAX_LEN {
        if FieldsOk(fields) {
          TotalTooLong(kind, fields, i + 1);
        }
        return false, buf;
      }
      i := i + 1;
    }
    assert fields[..n] == fields;
    LayoutIs(kind, fields);
    return true, buf;
  }

  /** The loop over the fields before: no key twice. */
  method KeyIsNew(fields: seq<Field>, i: nat) returns (ok: bool)
    requires i < |fields|
    ensures ok <==> forall k :: 0 <= k < i ==> fields[k].key != fields[i].key
  {
    for j := 0 to i
      invariant forall k :: 0 <= k < j ==> fields[k].key != fields[i].key
    {
      if fields[j].key == fields[i].key { return false; }
    }
    return true;
  }

  /** One more good field. */
  lemma FieldsMore(fields: seq<Field>, i: nat)
    requires i < |fields| && FieldsOk(fields[..i])
    ensures FieldsOk(fields[..i + 1]) <==>
      && SegmentArg(fields[i].key) && ValueOk(fields[i]) && forall k :: 0 <= k < i ==> fields[k].key != fields[i].key
    ensures !FieldsOk(fields[..i + 1]) ==> !FieldsOk(fields)
    ensures FieldsOk(fields[..i + 1]) ==> EachOk(fields[..i + 1])
  {
    hide SegmentArg, ValueOk;
    var a, b := fields[..i], fields[..i + 1];
    assert forall k :: 0 <= k < i ==> a[k] == fields[k];
    assert forall k :: 0 <= k <= i ==> b[k] == fields[k];
  }

  /**
   * The encoder. With fields it succeeds exactly when the rules hold, the kind is not `kind` and
   * the whole fits: the closing self-check turns away nothing else. Without fields it succeeds for
   * every kind that is a segment, and what it returns is acceptable only up to 4087 bytes of kind.
   */
  method EncodeAuditContext(kind: seq<byte>, fields: seq<Field>) returns (r: Option<seq<byte>>)
    requires ScalarsTyped(fields)
    ensures fields != [] ==>
      (r.Some? <==> WellFormedContext(kind, fields) && |Layout(kind, fields)| <= 4096)
    ensures fields == [] ==> (r.Some? <==> SegmentArg(kind))
    ensures r.Some? ==> SegmentArg(kind) && EachOk(fields) && |fields| < 0x1_0000 && r.value == Layout(kind, fields)
    ensures r.Some? ==> (Acceptable(r.value) <==> fields != [] || |kind| <= 4087)
  {
    hide ValidUtf8, Segment, Encode, EncStr, EncMap, Acceptable, AuditBlob, AuditMap, EncodeAll, FieldWrites, Prelude,
         AllTyped, AllWritable, ValueOk, FieldsOk, Layout;
    var segment := IsSegment(kind);
    if |kind| > MAX_LEN || !segment { return None; }
    var n := |fields|;
    EncodersAgree(n, kind, 0, 0);
    EncodersAgree(if n == 0 then 1 else 2, KIND, 0, 0);
    var buf := AuditMap(if n == 0 then 1 else 2).value + AuditBlob(KIND, false).value + AuditBlob(kind, false).value;
    if n == 0 {
      PreludeBytes(kind, 0);
      LayoutIs(kind, fields);
      PreludeAlone(kind, 0);
      LayoutAcceptable(kind, fields);
      NoFieldLength(kind);
      assert buf + [] == buf;
      return Some(buf);
    }
    var count := AuditMap(n);
    if count.None? { return None; }
    ghost var head := buf;
    buf := buf + AuditBlob(kind, false).value + count.value;
    PreludeBytes(kind, n);
    assert buf == head + (EncStr(kind) + EncMap(n));
    var ok;
    ok, buf := AppendFields(kind, fields, buf);
    if !ok { return None; }
    FieldsEach(fields);
    LayoutIs(kind, fields);
    LayoutAcceptable(kind, fields);
    var valid := AuditContextValid(buf);
    if !valid { return None; }
    AcceptableFits(buf);
    r := Some(buf);
  }
}
