/** Writing a value and reading it back, through the writer's calls and the cursor's typed reads. */
module MsgPackRoundTrip {
  import opened Bytes
  import opened Utf8
  import opened MsgPack
  import opened MsgPackGrammar
  import opened MsgPackCursor
  import opened MsgPackWriter

  /** Every integer head is in the range of one of the two integer reads. */
  lemma IntInRange(s: seq<byte>)
    requires ReadHead(s).Read? && ReadHead(s).t.TInt?
    ensures var n := ReadHead(s).t.n; InI64(n) || InU64(n)
  {
    hide ReadHead;
    PowValues();
    ReadHeadSound(s);
  }

  /** One head, by whichever typed read succeeds on it; nothing moves when none does. */
  method ReadTyped(c: Cursor) returns (t: Option<Token>)
    requires c.Valid()
    modifies c
    ensures c.Valid()
    ensures var h := ReadHead(old(c.Rest()));
      if h.Read? && HeadOk(h.t) then t == Some(h.t) && c.pos == old(c.pos) + h.len else t.None? && c.pos == old(c.pos)
  {
    hide ReadHead, ValidUtf8;
    var nil := c.ReadNil();
    if nil.Some? { return Some(TNil); }
    var b := c.ReadBool();
    if b.Some? { return Some(TBool(b.value)); }
    ghost var h := ReadHead(c.Rest());
    if h.Read? && h.t.TInt? {
      IntInRange(c.Rest());
    }
    var i := c.ReadI64();
    if i.Some? { return Some(TInt(i.value)); }
    var u := c.ReadU64();
    if u.Some? { return Some(TInt(u.value)); }
    var f := c.ReadF64();
    if f.Some? { return Some(TFloat(f.value)); }
    var s := c.ReadStr();
    if s.Some? { return Some(TStr(s.value)); }
    var d := c.ReadBin();
    if d.Some? { return Some(TBin(d.value)); }
    var e := c.ReadExt();
    if e.Some? { return Some(TExt(e.value.0, e.value.1)); }
    var n := c.ReadArray();
    if n.Some? { return Some(TArray(n.value)); }
    var m := c.ReadMap();
    if m.Some? { return Some(TMap(m.value)); }
    return None;
  }

  /** The values of `f`, if it read any and every string in them is UTF-8. */
  function Readable(f: Forest): Option<seq<Value>> {
    if f.Trees? && AllStringsOk(f.vs) then Some(f.vs) else None
  }

  lemma ReadableStep(s: seq<byte>, n: nat)
    requires n > 0
    ensures var h := ReadHead(s);
      if h.NoHead? || !HeadOk(h.t) then Readable(ParseForest(s, n)).None?
      else
        var kids := ParseForest(s[h.len..], Children(h.t));
        if Readable(kids).None? then Readable(ParseForest(s, n)).None?
        else
          var more := ParseForest(s[h.len + kids.used..], n - 1);
          if Readable(more).None? then Readable(ParseForest(s, n)).None?
          else
            && Readable(ParseForest(s, n)) == Some([Build(h.t, kids.vs)] + more.vs)
            && ParseForest(s, n).used == h.len + kids.used + more.used
  {
    hide ReadHead, ParseForest, StringsOk, Build, HeadOk;
    ForestUnfold(s, n);
    var h := ReadHead(s);
    if h.Read? {
      var kids := ParseForest(s[h.len..], Children(h.t));
      if kids.Trees? {
        BuildStrings(h.t, kids.vs);
      }
    }
  }

  /** `n` values, each head by its typed read and each container by its count. */
  method ReadTrees(c: Cursor, n: nat) returns (r: Option<seq<Value>>)
    requires c.Valid()
    modifies c
    ensures c.Valid()
    ensures r == Readable(ParseForest(old(c.Rest()), n))
    ensures r.Some? ==> c.pos == old(c.pos) + ParseForest(old(c.Rest()), n).used
    decreases |c.buf| - c.pos, n
  {
    hide ReadHead, ParseForest, AllStringsOk, Build, HeadOk;
    ghost var s := c.Rest();
    if n == 0 {
      ForestZero(s);
      NoStrings();
      return Some([]);
    }
    ReadableStep(s, n);
    var t := ReadTyped(c);
    if t.None? {
      return None;
    }
    ghost var h := ReadHead(s);
    assert c.Rest() == s[h.len..];
    var kids := ReadTrees(c, Children(t.value));
    if kids.None? {
      return None;
    }
    ghost var used := ParseForest(s[h.len..], Children(h.t)).used;
    assert c.Rest() == s[h.len + used..];
    var more := ReadTrees(c, n - 1);
    if more.None? {
      return None;
    }
    return Some([Build(t.value, kids.value)] + more.value);
  }

  lemma NoStrings()
    ensures AllStringsOk([])
  {
  }

  /** The one value that is the whole of `bytes`. */
  method ReadTree(bytes: seq<byte>) returns (r: Option<Value>)
    ensures r.Some? ==> ParseForest(bytes, 1) == Trees([r.value], |bytes|) && StringsOk(r.value)
    ensures r.None? ==> forall v :: StringsOk(v) ==> ParseForest(bytes, 1) != Trees([v], |bytes|)
  {
    hide ParseForest, StringsOk;
    var c := new Cursor(bytes);
    assert c.Rest() == bytes;
    var vs := ReadTrees(c, 1);
    forall v ensures AllStringsOk([v]) == StringsOk(v) {
      SingleStrings(v);
    }
    if vs.None? || c.pos < |c.buf| {
      return None;
    }
    assert vs.value == [vs.value[0]];
    return Some(vs.value[0]);
  }

  /** The writer's call for one write. */
  method Perform(w: Writer, x: Write)
    requires Typed(x)
    modifies w
    ensures w.State() == Apply(old(w.State()), x)
  {
    match x
    case WNil => w.WriteNil();
    case WBool(b) => w.WriteBool(b);
    case WInt(v) => w.WriteInt(v);
    case WUint(v) => w.WriteUint(v);
    case WFloat(raw) => w.WriteFloat(raw);
    case WStr(s) => w.WriteStr(s);
    case WBin(s) => w.WriteBin(s);
    case WExt(ty, s) => w.WriteExt(ty, s);
    case WArray(n) => w.WriteArray(n);
    case WMap(n) => w.WriteMap(n);
  }

  /** The writes are acceptable and are the preorder of `v`, which is no deeper than the ceiling. */
  ghost predicate WritesValue(ws: seq<Write>, v: Value)
    requires AllTyped(ws)
  {
    AllWritable(ws) && WritesTree(ws, v) && Depth(v) <= 256
  }

  /**
   * Any run of writer calls, the finished bytes, and those bytes read back through the cursor: the
   * tree that comes out is the one that was written, and one comes out exactly when one was.
   */
  method WriteThenRead(ws: seq<Write>) returns (r: Option<Value>)
    requires AllTyped(ws)
    ensures r.Some? ==> WritesValue(ws, r.value)
    ensures r.None? ==> forall v :: !WritesValue(ws, v)
  {
    hide Apply, ParseForest, StringsOk, Encode, EncodeAll, WritesTree, ValidPayload, Writable, MsgPackWriter.Typed;
    var w := new Writer();
    var i := 0;
    while i < |ws|
      invariant i <= |ws|
      invariant ApplyAll(WriterState([], 0), ws) == ApplyAll(w.State(), ws[i..])
    {
      assert ws[i..][0] == ws[i] && ws[i..][1..] == ws[i + 1..];
      Perform(w, ws[i]);
      i := i + 1;
    }
    assert ws[i..] == [];
    ErrorIsSticky(WriterState([], 0), ws);
    if AllWritable(ws) {
      assert [] + EncodeAll(ws) == EncodeAll(ws);
      WriterExact(ws);
    }
    var bytes := w.Bytes();
    if bytes.None? {
      return None;
    }
    r := ReadTree(bytes.value);
    ReadsWhatWasWritten(ws, r);
  }

  /** A valid payload has a tree, and the reader's answer is it. */
  lemma ReadsWhatWasWritten(ws: seq<Write>, r: Option<Value>)
    requires AllTyped(ws) && AllWritable(ws)
    requires exists v :: WritesTree(ws, v) && Depth(v) <= 256
    requires var s := EncodeAll(ws);
      && (r.Some? ==> ParseForest(s, 1) == Trees([r.value], |s|))
      && (r.None? ==> forall v :: StringsOk(v) ==> ParseForest(s, 1) != Trees([v], |s|))
    ensures r.Some? && WritesValue(ws, r.value)
  {
    hide ParseForest, StringsOk, EncodeAll, WritesTree, Depth;
    var v :| WritesTree(ws, v) && Depth(v) <= 256;
    WriteReadRoundTrip(ws, v);
  }
}
