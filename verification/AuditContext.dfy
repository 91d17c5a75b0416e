/** Audit contexts: the trees that are one, and the checks that decide it on bytes. */
module AuditContext {
  import opened Bytes
  import opened Utf8
  import opened MsgPack
  import opened MsgPackGrammar
  import opened MsgPackCursor
  import opened MsgPackWalker

  const MAX_LEN := 4096
  const MAX_NESTING := 31

  /** The bytes of "kind". */
  const KIND: seq<byte> := [0x6b, 0x69, 0x6e, 0x64]

  // ---- segments ----

  predicate Lower(b: byte) { 0x61 <= b <= 0x7a }

  predicate Alnum(b: byte) { Lower(b) || 0x30 <= b <= 0x39 }

  const DASH: byte := 0x2d

  /** `[a-z0-9]*(-[a-z0-9]+)*` */
  predicate SegmentTail(s: seq<byte>)
    decreases |s|
  {
    || s == []
    || (Alnum(s[0]) && SegmentTail(s[1..]))
    || (s[0] == DASH && |s| > 1 && Alnum(s[1]) && SegmentTail(s[2..]))
  }

  /** `[a-z][a-z0-9]*(-[a-z0-9]+)*` */
  predicate Segment(s: seq<byte>) {
    s != [] && Lower(s[0]) && SegmentTail(s[1..])
  }

  /** What the loop has left to match once it has just passed `previous`. */
  predicate Resume(previous: byte, s: seq<byte>) {
    if previous == DASH then s != [] && Alnum(s[0]) && SegmentTail(s[1..]) else SegmentTail(s)
  }

  method IsSegment(segment: seq<byte>) returns (ok: bool)
    ensures ok == Segment(segment)
  {
    if segment == [] || !Lower(segment[0]) {
      return false;
    }
    var previous := segment[0];
    for i := 1 to |segment|
      invariant Segment(segment) == Resume(previous, segment[i..])
    {
      var b := segment[i];
      assert segment[i..][1..] == segment[i + 1..];
      if |segment| > i + 1 {
        assert segment[i..][2..] == segment[i + 1..][1..];
      }
      if !(Alnum(b) || (b == DASH && previous != DASH)) {
        return false;
      }
      previous := b;
    }
    ok := previous != DASH;
  }

  /** Runs of lower-case letters and digits with single dashes between them, the first starting with a letter. */
  predicate Dashed(s: seq<byte>) {
    && (forall i :: 0 <= i < |s| ==> 0x61 <= s[i] <= 0x7a || 0x30 <= s[i] <= 0x39 || s[i] == 0x2d)
    && (forall i :: 0 <= i < |s| && s[i] == 0x2d ==> i + 1 < |s| && s[i + 1] != 0x2d)
  }

  lemma {:induction false} SegmentTailExact(s: seq<byte>)
    ensures SegmentTail(s) <==> Dashed(s)
    decreases |s|
  {
    if s != [] {
      SegmentTailExact(s[1..]);
      assert Dashed(s) ==> Dashed(s[1..]) by {
        assert forall i :: 0 <= i < |s[1..]| ==> s[1..][i] == s[i + 1];
      }
      if Dashed(s[1..]) {
        assert forall i :: 1 <= i < |s| ==> s[i] == s[1..][i - 1];
      }
      if |s| > 1 && s[0] == 0x2d && s[1] != 0x2d {
        assert s[1..][1..] == s[2..];
      }
    }
  }

  lemma SegmentExact(s: seq<byte>)
    ensures Segment(s) <==> s != [] && 0x61 <= s[0] <= 0x7a && Dashed(s)
  {
    if s != [] {
      SegmentTailExact(s[1..]);
      assert forall i :: 1 <= i < |s| ==> s[i] == s[1..][i - 1];
      assert forall i :: 0 <= i < |s[1..]| ==> s[1..][i] == s[i + 1];
    }
  }

  lemma {:induction false} SegmentIsUtf8(s: seq<byte>)
    requires Segment(s)
    ensures ValidUtf8(s)
  {
    SegmentTailAscii(s[1..]);
    forall i | 0 <= i < |s| ensures s[i] < 0x80 {
      if i > 0 { assert s[i] == s[1..][i - 1]; }
    }
    AsciiIsUtf8(s);
  }

  lemma {:induction false} SegmentTailAscii(s: seq<byte>)
    requires SegmentTail(s)
    ensures forall i :: 0 <= i < |s| ==> s[i] < 0x80
    decreases |s|
  {
    if s != [] {
      if Alnum(s[0]) {
        SegmentTailAscii(s[1..]);
        forall i | 0 <= i < |s| ensures s[i] < 0x80 {
          if i > 0 { assert s[i] == s[1..][i - 1]; }
        }
      } else {
        SegmentTailAscii(s[2..]);
        forall i | 0 <= i < |s| ensures s[i] < 0x80 {
          if i > 1 { assert s[i] == s[2..][i - 2]; }
        }
      }
    }
  }

  // ---- the rules, on trees ----

  /** A string key: UTF-8, as every string the walker reads must be. */
  predicate StrKey(v: Value) {
    v.Leaf? && v.t.TStr? && ValidUtf8(v.t.s)
  }

  /** A string that is one segment. */
  predicate SegmentStr(v: Value) {
    StrKey(v) && Segment(v.t.s)
  }

  /** At least one pair, every key of it a `SegmentStr`; the values are free. */
  predicate BodyOk(v: Value) {
    && v.Map? && |v.items| % 2 == 0 && |v.items| > 0
    && forall i :: 0 <= i < |v.items| && i % 2 == 0 ==> SegmentStr(v.items[i])
  }

  /** `{kind: <k>}`, or `{kind: <k>, <k>: <body>}` with its entries in either order. */
  predicate ContextOk(v: Value) {
    && v.Map?
    && if |v.items| == 2 then NamesKind(v.items[0], v.items[1])
       else
         && |v.items| == 4
         && (TwoEntries(v.items[0], v.items[1], v.items[2], v.items[3])
             || TwoEntries(v.items[2], v.items[3], v.items[0], v.items[1]))
  }

  predicate NamesKind(key: Value, value: Value) {
    StrKey(key) && key.t.s == KIND && SegmentStr(value)
  }

  predicate TwoEntries(k: Value, v: Value, k': Value, v': Value) {
    NamesKind(k, v) && StrKey(k') && k'.t.s != KIND && k'.t.s == v.t.s && BodyOk(v')
  }

  /** What the kernel accepts as an audit context. */
  ghost predicate Acceptable(bytes: seq<byte>) {
    && 0 < |bytes| <= 4096
    && (exists v :: Derives(v, bytes) && ContextOk(v))
    && ValidPayload(bytes, 31)
  }

  // ---- walking the entries of a map ----

  /** The value at the front of `s`. */
  function ValueAt(s: seq<byte>): Value
    requires ParseForest(s, 1).Trees?
  {
    ParseForest(s, 1).vs[0]
  }

  /** A value of `s` alone: the walker's slice `&bytes[start..pos]` parses to the same tree. */
  lemma SliceParses(s: seq<byte>, m: nat)
    requires Extent(s, 1, false) == Some(m)
    ensures ParseForest(s, 1) == Trees([ValueAt(s)], m) && Derives(ValueAt(s), s[..m])
    ensures ParseForest(s[..m], 1) == Trees([ValueAt(s)], m)
  {
    hide ReadHead, ParseForest, IsHead;
    ForestSound(s, 1);
    var v := ValueAt(s);
    assert ParseForest(s, 1).vs == [v];
    OneTree(v, s[..m]);
    TreeComplete(v, s[..m], []);
    assert s[..m] + [] == s[..m];
  }

  /** A leaf head is a whole value; a container head is not a leaf. */
  lemma LeafParses(s: seq<byte>)
    ensures var h := ReadHead(s);
      && (h.NoHead? ==> ParseForest(s, 1).NoForest?)
      && (h.Read? && !h.t.TArray? && !h.t.TMap? ==> ParseForest(s, 1) == Trees([Leaf(h.t)], h.len))
      && (h.Read? && (h.t.TArray? || h.t.TMap?) && ParseForest(s, 1).Trees? ==> !ValueAt(s).Leaf?)
  {
    hide ReadHead, ParseForest;
    ForestUnfold(s, 1);
    var h := ReadHead(s);
    if h.Read? {
      ForestZero(s[h.len..]);
      if h.len <= |s| {
        var kids := ParseForest(s[h.len..], Children(h.t));
        if kids.Trees? {
          ForestZero(s[h.len + kids.used..]);
        }
      }
    }
  }

  /** `mp_str` succeeds exactly on a value that is a UTF-8 string. */
  lemma StrParses(s: seq<byte>)
    ensures var k := MpStr(s, 0);
      if k.NoStr? then ParseForest(s, 1).Trees? ==> !StrKey(ValueAt(s))
      else ParseForest(s, 1) == Trees([Leaf(TStr(k.s))], k.end) && ValidUtf8(k.s) && k.end <= |s|
  {
    hide ReadHead, ParseForest, ValidUtf8, MpStr;
    LeafParses(s);
    assert s[0..] == s;
    MpStrIsHead(s, 0);
  }

  /** The extent of the value after a key of `s` that ends at `a`. */
  function After(s: seq<byte>, a: nat): (r: Option<nat>)
    requires a <= |s|
    ensures r.Some? ==> a + r.value <= |s|
  {
    Extent(s[a..], 1, false)
  }

  /** One entry of a map body, then the entries after it. */
  lemma EntrySplits(s: seq<byte>, m: nat)
    requires m > 0
    ensures var k := MpStr(s, 0); var f := ParseForest(s, 2 * m);
      if k.NoStr? then f.Trees? ==> !StrKey(f.vs[0])
      else
        && k.end <= |s|
        && if After(s, k.end).None? then f.NoForest?
           else var at := k.end + After(s, k.end).value;
             && ParseForest(s[k.end..], 1).Trees?
             && f == Then(Trees([Leaf(TStr(k.s)), ValueAt(s[k.end..])], at), ParseForest(s[at..], 2 * (m - 1)))
  {
    hide ReadHead, ParseForest, ValidUtf8, MpStr;
    var k, f := MpStr(s, 0), ParseForest(s, 2 * m);
    StrParses(s);
    ForestSplit(s, 1, 2 * m - 1);
    if k.NoStr? {
      if f.Trees? {
        assert f.vs[0] == ParseForest(s, 1).vs[0];
      }
    } else {
      ForestSplit(s[k.end..], 1, 2 * (m - 1));
      if After(s, k.end).Some? {
        var u := After(s, k.end).value;
        SliceParses(s[k.end..], u);
        assert s[k.end..][u..] == s[k.end + u..];
        var g := ParseForest(s[k.end + u..], 2 * (m - 1));
        if g.Trees? {
          var v := ValueAt(s[k.end..]);
          assert [Leaf(TStr(k.s))] + ([v] + g.vs) == [Leaf(TStr(k.s)), v] + g.vs;
        }
      }
    }
  }

  /** `s` is `m` entries with segment keys, and nothing more. */
  predicate BodyEntries(s: seq<byte>, m: nat) {
    var f := ParseForest(s, 2 * m);
    f.Trees? && f.used == |s| && forall i :: 0 <= i < 2 * m && i % 2 == 0 ==> SegmentStr(f.vs[i])
  }

  lemma BodyEntriesStep(s: seq<byte>, m: nat)
    requires m > 0
    ensures var k := MpStr(s, 0);
      BodyEntries(s, m) ==
      (&& k.StrAt? && k.end <= |s| && Segment(k.s)
       && After(s, k.end).Some?
       && BodyEntries(s[k.end + After(s, k.end).value..], m - 1))
  {
    hide ReadHead, ParseForest, ValidUtf8, MpStr, Segment, After;
    EntrySplits(s, m);
    StrParses(s);
    var k := MpStr(s, 0);
    if k.StrAt? && After(s, k.end).Some? {
      var at := k.end + After(s, k.end).value;
      var f, g := ParseForest(s, 2 * m), ParseForest(s[at..], 2 * (m - 1));
      if g.Trees? {
        assert f.vs == [Leaf(TStr(k.s)), ValueAt(s[k.end..])] + g.vs;
        if BodyEntries(s, m) {
          assert SegmentStr(f.vs[0]);
          forall i | 0 <= i < 2 * (m - 1) && i % 2 == 0 ensures SegmentStr(g.vs[i]) {
            assert f.vs[i + 2] == g.vs[i] && (i + 2) % 2 == 0;
          }
        }
        if Segment(k.s) && BodyEntries(s[at..], m - 1) {
          forall i | 0 <= i < 2 * m && i % 2 == 0 ensures SegmentStr(f.vs[i]) {
            if i > 0 {
              assert f.vs[i] == g.vs[i - 2] && (i - 2) % 2 == 0;
            }
          }
        }
      }
    }
  }

  /** A whole buffer that is a map, seen as its head and its entries. */
  lemma SingleTree(s: seq<byte>)
    ensures var h := ReadHead(s);
      ParseForest(s, 1) ==
      if h.NoHead? then NoForest
      else
        var kids := ParseForest(s[h.len..], Children(h.t));
        if kids.NoForest? then NoForest else Trees([Build(h.t, kids.vs)], h.len + kids.used)
  {
    hide ReadHead, ParseForest, Children, Build;
    ForestUnfold(s, 1);
    var h := ReadHead(s);
    if h.Read? {
      var kids := ParseForest(s[h.len..], Children(h.t));
      if kids.Trees? {
        ForestZero(s[h.len + kids.used..]);
      }
    }
  }

  lemma MapSplits(s: seq<byte>)
    ensures var h := MapLen(s, 0);
      if h.NoMap? then ParseForest(s, 1).Trees? ==> !ValueAt(s).Map?
      else
        && h.end <= |s|
        && var f := ParseForest(s[h.end..], 2 * h.count);
        ParseForest(s, 1) == if f.NoForest? then NoForest else Trees([Map(f.vs)], h.end + f.used)
  {
    hide ReadHead, ParseForest, MapLen;
    assert s[0..] == s;
    MapLenIsHead(s, 0);
    SingleTree(s);
  }

  /** The slice is one value, and a body by the rules. */
  ghost predicate BodyBytes(body: seq<byte>) {
    exists v :: Derives(v, body) && BodyOk(v)
  }

  lemma BodySplits(body: seq<byte>)
    ensures var h := MapLen(body, 0);
      BodyBytes(body) <==> h.MapAt? && h.count > 0 && h.end <= |body| && BodyEntries(body[h.end..], h.count)
  {
    hide ReadHead, ParseForest, ValidUtf8, Segment, MapLen, Derives;
    MapSplits(body);
    var h := MapLen(body, 0);
    if v :| Derives(v, body) && BodyOk(v) {
      ParseIsGrammar(body, v);
      assert ParseForest(body, 1).vs == [v];
      assert v == Map(ParseForest(body[h.end..], 2 * h.count).vs);
    }
    if h.MapAt? && h.count > 0 && BodyEntries(body[h.end..], h.count) {
      var v := Map(ParseForest(body[h.end..], 2 * h.count).vs);
      ParseIsGrammar(body, v);
      assert BodyOk(v);
    }
  }

  method AuditBodyValid(body: seq<byte>) returns (ok: bool)
    requires |body| < Pow256(8)
    ensures ok == BodyBytes(body)
  {
    hide ReadHead, ParseForest, ValidUtf8, MpStr, MapLen, Segment, BodyEntries, Extent, BodyBytes;
    BodySplits(body);
    MapSplits(body);
    var head := MapLen(body, 0);
    if head.NoMap? || head.count == 0 { return false; }
    var entries, pos := head.count, head.end;
    for i := 0 to entries
      invariant head.end <= pos <= |body|
      invariant BodyEntries(body[head.end..], entries) == BodyEntries(body[pos..], entries - i)
    {
      ghost var s := body[pos..];
      BodyEntriesStep(s, entries - i);
      MpStrShift(body, pos);
      var key := MpStr(body, pos);
      if key.NoStr? { return false; }
      var segment := IsSegment(key.s);
      if !segment { return false; }
      assert body[key.end..] == s[key.end - pos..];
      var end := SkipValue(body, key.end);
      if end.None? { return false; }
      assert body[end.value..] == s[end.value - pos..];
      pos := end.value;
    }
    NoEntries(body[pos..]);
    ok := pos == |body|;
  }

  lemma NoEntries(s: seq<byte>)
    ensures BodyEntries(s, 0) <==> s == []
  {
    hide ReadHead;
    ForestZero(s);
  }

  lemma MpStrShift(bytes: seq<byte>, pos: nat)
    requires pos <= |bytes|
    ensures var k, k0 := MpStr(bytes, pos), MpStr(bytes[pos..], 0);
      if k.NoStr? then k0.NoStr? else pos <= k.end <= |bytes| && k0 == StrAt(k.s, k.end - pos)
  {
    hide ReadHead, ValidUtf8, MpStr;
    MpStrIsHead(bytes, pos);
    MpStrIsHead(bytes[pos..], 0);
    assert bytes[pos..][0..] == bytes[pos..];
  }

  // ---- the context's shape ----

  ghost predicate ContextBytes(bytes: seq<byte>) {
    exists v :: Derives(v, bytes) && ContextOk(v)
  }

  lemma ContextSplits(bytes: seq<byte>)
    ensures var h := MapLen(bytes, 0);
      ContextBytes(bytes) <==>
      && h.MapAt? && h.end <= |bytes|
      && var f := ParseForest(bytes[h.end..], 2 * h.count);
      f.Trees? && h.end + f.used == |bytes| && ContextOk(Map(f.vs))
  {
    hide ReadHead, ParseForest, MapLen, Derives, ContextOk;
    MapSplits(bytes);
    var h := MapLen(bytes, 0);
    if v :| Derives(v, bytes) && ContextOk(v) {
      ParseIsGrammar(bytes, v);
      assert ParseForest(bytes, 1).vs == [v];
      assert v.Map? by { ContextIsMap(v); }
    }
    if h.MapAt? && ParseForest(bytes, 1).Trees? {
      var v := Map(ParseForest(bytes[h.end..], 2 * h.count).vs);
      ParseIsGrammar(bytes, v);
    }
  }

  lemma ContextIsMap(v: Value)
    requires ContextOk(v)
    ensures v.Map? && (|v.items| == 2 || |v.items| == 4)
  {
  }

  /** The entry whose key is not `kind`: its key, and the slice its value was read from. */
  datatype Other = NoOther | Other(key: seq<byte>, slice: seq<byte>)

  ghost predicate OtherIs(other: Other, key: Value, value: Value) {
    other.Other? && StrKey(key) && key.t.s != KIND && other.key == key.t.s && Derives(value, other.slice)
  }

  ghost predicate KindIs(kind: Option<seq<byte>>, key: Value, value: Value) {
    NamesKind(key, value) && kind == Some(value.t.s)
  }

  /** What the loop knows after reading the entries `done`. */
  ghost predicate Scanned(done: seq<Value>, kind: Option<seq<byte>>, other: Other) {
    if |done| == 0 then kind.None? && other.NoOther?
    else if |done| == 2 then
      || (KindIs(kind, done[0], done[1]) && other.NoOther?)
      || (kind.None? && OtherIs(other, done[0], done[1]))
    else
      && |done| == 4
      && (|| (KindIs(kind, done[0], done[1]) && OtherIs(other, done[2], done[3]))
          || (KindIs(kind, done[2], done[3]) && OtherIs(other, done[0], done[1]))
          || (kind.None? && OtherIs(other, done[2], done[3]) && StrKey(done[0]) && done[0].t.s != KIND))
  }

  /** The end of the walk: what is left to check decides the rules. */
  lemma ScannedDecides(done: seq<Value>, kind: Option<seq<byte>>, other: Other)
    requires |done| > 0 && Scanned(done, kind, other)
    ensures ContextOk(Map(done)) <==>
      kind.Some? && (other.NoOther? || (other.key == kind.value && BodyBytes(other.slice)))
  {
    hide Derives, ValidUtf8, Segment, BodyOk;
    if other.Other? {
      forall v, w | Derives(v, other.slice) && Derives(w, other.slice) ensures v == w {
        GrammarUnambiguous(other.slice, v, w);
      }
    }
  }

  /** An entry the loop rejects breaks the rules whatever the others are. */
  lemma BadEntry(items: seq<Value>, i: nat)
    requires i % 2 == 0 && i + 1 < |items|
    requires
      || !StrKey(items[i])
      || (items[i].t.s == KIND && !SegmentStr(items[i + 1]))
      || (i == 2 && StrKey(items[0]) && items[0].t.s == KIND && items[2].t.s == KIND)
    ensures !ContextOk(Map(items))
  {
    hide ValidUtf8, Segment, BodyOk;
  }

  lemma ThenAppends(done: seq<Value>, used: nat, key: Value, value: Value, n: nat, g: Forest)
    ensures Then(Trees(done, used), Then(Trees([key, value], n), g)) == Then(Trees(done + [key, value], used + n), g)
  {
    if g.Trees? {
      assert done + ([key, value] + g.vs) == done + [key, value] + g.vs;
    }
  }

  lemma ScannedKind(done: seq<Value>, kind: Option<seq<byte>>, other: Other, key: Value, value: Value)
    requires |done| <= 2 && Scanned(done, kind, other) && kind.None? && NamesKind(key, value)
    ensures Scanned(done + [key, value], Some(value.t.s), other)
  {
  }

  lemma ScannedOther(done: seq<Value>, kind: Option<seq<byte>>, other: Other, key: Value, value: Value, slice: seq<byte>)
    requires |done| <= 2 && Scanned(done, kind, other)
    requires StrKey(key) && key.t.s != KIND && Derives(value, slice)
    ensures Scanned(done + [key, value], kind, Other(key.t.s, slice))
  {
  }

  lemma ScannedTwice(done: seq<Value>, kind: Option<seq<byte>>, other: Other)
    requires |done| <= 2 && Scanned(done, kind, other) && kind.Some?
    ensures |done| == 2 && StrKey(done[0]) && done[0].t.s == KIND
  {
  }

  /** A slice that is one value: `mp_str` takes all of it exactly when the value is a UTF-8 string. */
  lemma SliceIsStr(slice: seq<byte>, v: Value)
    requires ParseForest(slice, 1) == Trees([v], |slice|)
    ensures var k := MpStr(slice, 0);
      if StrKey(v) then k == StrAt(v.t.s, |slice|) else k.NoStr?
  {
    hide ReadHead, ParseForest, ValidUtf8, MpStr;
    StrParses(slice);
  }

  /** `f` is the entries `done` and then `g`: a bad entry among them settles the verdict. */
  ghost predicate Continues(f: Forest, done: seq<Value>, used: nat, g: Forest) {
    f == Then(Trees(done, used), g)
  }

  lemma ContinuesPast(f: Forest, done: seq<Value>, used: nat, g: Forest, key: Value, value: Value, n: nat, later: Forest)
    requires Continues(f, done, used, g) && g == Then(Trees([key, value], n), later)
    ensures Continues(f, done + [key, value], used + n, later)
  {
    ThenAppends(done, used, key, value, n, later);
  }

  /** The entry at `i` breaks the rules, whatever follows. */
  predicate BadAt(done: seq<Value>, i: nat) {
    && i % 2 == 0 && i + 1 < |done|
    && (|| !StrKey(done[i])
        || (done[i].t.s == KIND && !SegmentStr(done[i + 1]))
        || (i == 2 && StrKey(done[0]) && done[0].t.s == KIND && done[2].t.s == KIND))
  }

  lemma Rejected(f: Forest, done: seq<Value>, used: nat, g: Forest, i: nat)
    requires Continues(f, done, used, g) && BadAt(done, i)
    ensures f.Trees? ==> !ContextOk(Map(f.vs))
  {
    hide ValidUtf8, Segment, BodyOk, ContextOk;
    if f.Trees? {
      BadEntry(f.vs, i);
    }
  }

  lemma RejectedKey(f: Forest, done: seq<Value>, used: nat, g: Forest)
    requires Continues(f, done, used, g) && |done| % 2 == 0
    requires g.Trees? ==> |g.vs| >= 2 && !StrKey(g.vs[0])
    ensures f.Trees? ==> !ContextOk(Map(f.vs))
  {
    hide ValidUtf8, Segment, BodyOk, ContextOk;
    if f.Trees? {
      BadEntry(f.vs, |done|);
    }
  }

  lemma NotTwoEntries(f: Forest, entries: nat)
    requires f.Trees? ==> |f.vs| == 2 * entries
    requires entries == 0 || entries > 2
    ensures f.Trees? ==> !ContextOk(Map(f.vs))
  {
    hide ValidUtf8, Segment, BodyOk;
  }

  /** A key, the slice its value was read from, and where the entry ends. */
  datatype EntryRead = NoPair | EntryAt(key: seq<byte>, slice: seq<byte>, end: nat)

  /** The loop's `mp_str` and `mp_skip_value`: one entry, or proof that the buffer has none to offer. */
  method ReadEntry(bytes: seq<byte>, pos: nat, m: nat) returns (r: EntryRead, ghost v: Value)
    requires pos <= |bytes| < Pow256(8) && m > 0
    ensures var f := ParseForest(bytes[pos..], 2 * m);
      if r.NoPair? then f.Trees? ==> !StrKey(f.vs[0])
      else
        && pos <= r.end <= |bytes| && |r.slice| <= |bytes| && ValidUtf8(r.key)
        && ParseForest(r.slice, 1) == Trees([v], |r.slice|) && Derives(v, r.slice)
        && f == Then(Trees([Leaf(TStr(r.key)), v], r.end - pos), ParseForest(bytes[r.end..], 2 * (m - 1)))
  {
    hide ReadHead, ParseForest, ValidUtf8, MpStr, Derives, Extent;
    ghost var s := bytes[pos..];
    EntrySplits(s, m);
    StrParses(s);
    MpStrShift(bytes, pos);
    v := Leaf(TNil);
    var key := MpStr(bytes, pos);
    if key.NoStr? { return NoPair, v; }
    assert bytes[key.end..] == s[key.end - pos..];
    var end := SkipValue(bytes, key.end);
    if end.None? { return NoPair, v; }
    assert bytes[key.end..end.value] == bytes[key.end..][..end.value - key.end];
    SliceParses(bytes[key.end..], end.value - key.end);
    assert bytes[end.value..] == s[end.value - pos..];
    v := ValueAt(bytes[key.end..]);
    r := EntryAt(key.s, bytes[key.end..end.value], end.value);
  }

  /** The value of a `kind` entry: a string that is one segment. */
  method ReadKind(slice: seq<byte>, ghost v: Value) returns (r: Option<seq<byte>>)
    requires ParseForest(slice, 1) == Trees([v], |slice|)
    ensures r.Some? <==> SegmentStr(v)
    ensures r.Some? ==> r.value == v.t.s
  {
    hide ParseForest, ValidUtf8, MpStr, Segment;
    SliceIsStr(slice, v);
    var name := MpStr(slice, 0);
    if name.NoStr? || name.end != |slice| {
      return None;
    }
    var ok := IsSegment(name.s);
    return if ok then Some(name.s) else None;
  }

  /** One turn of the loop: a second `kind`, or one that is no segment, ends it. */
  method ScanEntry(entry: EntryRead, ghost v: Value, kind: Option<seq<byte>>, other: Other, ghost done: seq<Value>)
    returns (ok: bool, kind': Option<seq<byte>>, other': Other, ghost bad: nat)
    requires entry.EntryAt? && ValidUtf8(entry.key) && |done| <= 2 && |done| % 2 == 0 && Scanned(done, kind, other)
    requires ParseForest(entry.slice, 1) == Trees([v], |entry.slice|) && Derives(v, entry.slice)
    ensures var all := done + [Leaf(TStr(entry.key)), v];
      if ok then Scanned(all, kind', other') && (other' == other || (other'.Other? && other'.slice == entry.slice))
      else BadAt(all, bad)
  {
    hide ParseForest, ValidUtf8, Segment, Derives, Scanned;
    ghost var k := Leaf(TStr(entry.key));
    ok, kind', other', bad := true, kind, other, |done|;
    if entry.key == KIND {
      if kind.Some? {
        ScannedTwice(done, kind, other);
        ok, bad := false, 2;
        return;
      }
      var name := ReadKind(entry.slice, v);
      if name.None? {
        ok := false;
        return;
      }
      ScannedKind(done, kind, other, k, v);
      kind' := name;
    } else {
      ScannedOther(done, kind, other, k, v, entry.slice);
      other' := Other(entry.key, entry.slice);
    }
  }

  /** The shape check of a whole buffer decides the rules. */
  method AuditContextShape(bytes: seq<byte>) returns (ok: bool)
    requires |bytes| < Pow256(8)
    ensures ok == ContextBytes(bytes)
  {
    hide ReadHead, ParseForest, ValidUtf8, MpStr, MapLen, Segment, Extent, Derives, BodyOk, ContextOk, BodyBytes, ContextBytes, Scanned, Continues, Then,
         BadAt, StrKey, SegmentStr;
    ContextSplits(bytes);
    MapSplits(bytes);
    var head := MapLen(bytes, 0);
    if head.NoMap? { return false; }
    var entries, pos := head.count, head.end;
    ghost var f := ParseForest(bytes[pos..], 2 * entries);
    if entries == 0 || entries > 2 {
      NotTwoEntries(f, entries);
      return false;
    }
    var kind: Option<seq<byte>>, other := None, NoOther;
    ghost var done: seq<Value> := [];
    ScanStart(f);
    for i := 0 to entries
      invariant head.end <= pos <= |bytes|
      invariant |done| == 2 * i && Scanned(done, kind, other)
      invariant other.Other? ==> |other.slice| <= |bytes|
      invariant Continues(f, done, pos - head.end, ParseForest(bytes[pos..], 2 * (entries - i)))
    {
      var entry, v := ReadEntry(bytes, pos, entries - i);
      if entry.NoPair? {
        RejectedKey(f, done, pos - head.end, ParseForest(bytes[pos..], 2 * (entries - i)));
        return false;
      }
      ghost var k := Leaf(TStr(entry.key));
      ghost var later, used := ParseForest(bytes[entry.end..], 2 * (entries - i - 1)), entry.end - head.end;
      ContinuesPast(f, done, pos - head.end, ParseForest(bytes[pos..], 2 * (entries - i)), k, v, entry.end - pos, later);
      ghost var bad;
      ok, kind, other, bad := ScanEntry(entry, v, kind, other, done);
      if !ok {
        Rejected(f, done + [k, v], used, later, bad);
        return false;
      }
      done := done + [k, v];
      pos := entry.end;
    }
    ForestZero(bytes[pos..]);
    ScanEnd(f, done, pos - head.end);
    ScannedDecides(done, kind, other);
    if pos != |bytes| || kind.None? { return false; }
    match other
    case NoOther => ok := true;
    case Other(key, value) =>
      if key == kind.value {
        ok := AuditBodyValid(value);
      } else {
        ok := false;
      }
  }

  lemma ScanEnd(f: Forest, done: seq<Value>, used: nat)
    requires Continues(f, done, used, Trees([], 0))
    ensures f == Trees(done, used)
  {
    assert done + [] == done;
  }

  lemma ScanStart(f: Forest)
    ensures Scanned([], None, NoOther) && Continues(f, [], 0, f)
  {
    if f.Trees? {
      assert [] + f.vs == f.vs;
    }
  }

  /** `audit_context_valid`: the length and nesting bounds around the shape check. */
  method AuditContextValid(bytes: seq<byte>) returns (ok: bool)
    ensures ok == Acceptable(bytes)
  {
    if bytes == [] || |bytes| > MAX_LEN { return false; }
    PowValues();
    var shape := AuditContextShape(bytes);
    if !shape { return false; }
    ok := Validate(bytes, MAX_NESTING);
  }
}
