/** The decode cursor, `skip`, and the stack-machine validator. */
module MsgPackCursor {
  import opened Bytes
  import opened Utf8
  import opened MsgPack
  import opened MsgPackGrammar

  const MAX_DEPTH := 256

  /** Whether a head passes the strict reader: a string must be UTF-8. */
  predicate HeadOk(t: Token) {
    t.TStr? ==> ValidUtf8(t.s)
  }

  // ---- skipping ----

  /** How many bytes `n` values take at the front of `s`; `strict` also demands UTF-8 strings. */
  function Extent(s: seq<byte>, n: nat, strict: bool): (r: Option<nat>)
    ensures r.Some? ==> n <= r.value <= |s|
  {
    match ParseForest(s, n)
    case NoForest => None
    case Trees(vs, used) => if strict && !AllStringsOk(vs) then None else Some(used)
  }

  /** One value of the worklist gives way to its children. */
  lemma ExtentStep(s: seq<byte>, n: nat, strict: bool)
    requires n > 0
    ensures var h := ReadHead(s);
      Extent(s, n, strict) ==
      if h.NoHead? || (strict && !HeadOk(h.t)) then None
      else match Extent(s[h.len..], Children(h.t) + (n - 1), strict)
           case None => None
           case Some(m) => Some(h.len + m)
  {
    hide ReadHead, ParseForest, ValidUtf8;
    ForestUnfold(s, n);
    var h := ReadHead(s);
    if h.Read? {
      ForestSplit(s[h.len..], Children(h.t), n - 1);
      var kids := ParseForest(s[h.len..], Children(h.t));
      if kids.Trees? {
        assert s[h.len..][kids.used..] == s[h.len + kids.used..];
        var later := ParseForest(s[h.len + kids.used..], n - 1);
        if later.Trees? {
          StringsOkAppend(kids.vs, later.vs);
          BuildStrings(h.t, kids.vs);
          assert ([Build(h.t, kids.vs)] + later.vs)[1..] == later.vs;
        }
      }
    }
  }

  lemma BuildStrings(t: Token, kids: seq<Value>)
    requires |kids| == Children(t)
    ensures StringsOk(Build(t, kids)) <==> HeadOk(t) && AllStringsOk(kids)
  {
    hide ValidUtf8;
  }

  lemma ExtentZero(s: seq<byte>)
    ensures Extent(s, 0, true) == Some(0)
  {
    ForestZero(s);
  }

  /** More values than bytes cannot be there. */
  lemma ExtentTooMany(s: seq<byte>, n: nat, strict: bool)
    requires n > |s|
    ensures Extent(s, n, strict) == None
  {
  }

  /**
   * What both walkers decide: one value ends `m` bytes on exactly when the grammar derives those
   * bytes, and the strict walker asks for UTF-8 strings besides.
   */
  lemma ExtentIsGrammar(s: seq<byte>, m: nat, strict: bool)
    requires m <= |s|
    ensures Extent(s, 1, strict) == Some(m) <==> exists v :: Derives(v, s[..m]) && (strict ==> StringsOk(v))
  {
    hide ReadHead, ParseForest, ValidUtf8, StringsOk;
    if Extent(s, 1, strict) == Some(m) {
      var r := ParseForest(s, 1);
      ForestSound(s, 1);
      var v := r.vs[0];
      assert r.vs == [v];
      OneTree(v, s[..m]);
      SingleStrings(v);
    }
    if v :| Derives(v, s[..m]) && (strict ==> StringsOk(v)) {
      TreeComplete(v, s[..m], s[m..]);
      assert s[..m] + s[m..] == s;
      SingleStrings(v);
    }
  }

  lemma OneTree(v: Value, s: seq<byte>)
    requires DerivesAll([v], s)
    ensures Derives(v, s)
  {
    hide IsHead;
    var k :| 0 <= k <= |s| && Derives([v][0], s[..k]) && DerivesAll([v][1..], s[k..]);
    assert s[k..] == [] && s[..k] == s;
  }

  lemma SingleStrings(v: Value)
    ensures AllStringsOk([v]) <==> StringsOk(v)
  {
    assert AllStringsOk([v][1..]);
  }

  // ---- the validator's stack ----

  /**
   * The rest of the run from stack `st` (top last): level `i` still owes `st[i]` values, each of
   * depth at most `max - i`, and then no byte may be left.
   */
  predicate Accepts(s: seq<byte>, st: seq<nat>, max: nat)
    decreases |st|, 1
  {
    if st == [] then s == [] else LevelOk(ParseForest(s, st[|st| - 1]), s, st[..|st| - 1], max)
  }

  predicate LevelOk(f: Forest, s: seq<byte>, below: seq<nat>, max: nat)
    decreases |below|, 2
  {
    && f.Trees? && f.used <= |s|
    && AllStringsOk(f.vs) && MaxDepth(f.vs) + |below| <= max
    && Accepts(s[f.used..], below, max)
  }

  lemma AcceptsUnfold(s: seq<byte>, below: seq<nat>, n: nat, max: nat)
    ensures Accepts(s, below + [n], max) == LevelOk(ParseForest(s, n), s, below, max)
  {
    hide ReadHead, ParseForest;
    assert (below + [n])[..|below|] == below;
  }

  lemma AcceptsPop(s: seq<byte>, below: seq<nat>, max: nat)
    requires |below| < max
    ensures Accepts(s, below + [0], max) == Accepts(s, below, max)
  {
    hide ReadHead, ParseForest;
    AcceptsUnfold(s, below, 0, max);
    ForestZero(s);
    assert s[0..] == s;
  }

  /** A forest of one tree and then `later`: what its level demands, part by part. */
  lemma LevelCons(t: Token, kids: seq<Value>, at: nat, later: Forest, s: seq<byte>, below: seq<nat>, max: nat)
    requires |kids| == Children(t) && at <= |s|
    ensures LevelOk(Cons(Build(t, kids), at, later), s, below, max) <==>
      && HeadOk(t) && AllStringsOk(kids) && 1 + MaxDepth(kids) + |below| <= max
      && LevelOk(later, s[at..], below, max)
  {
    hide ValidUtf8, StringsOk, AllStringsOk, Accepts, HeadOk;
    if later.Trees? {
      var v := Build(t, kids);
      if later.used <= |s[at..]| {
        assert s[at..][later.used..] == s[at + later.used..];
      }
      StringsOkAppend([v], later.vs);
      MaxDepthAppend([v], later.vs);
      SingleStrings(v);
      SingleDepth(v);
      BuildStrings(t, kids);
    }
  }

  /** One step of the machine: consume a head and, if it has children, open a level for them. */
  lemma AcceptsStep(s: seq<byte>, below: seq<nat>, n: nat, max: nat)
    requires n > 0 && |below| < max
    ensures var h := ReadHead(s);
      Accepts(s, below + [n], max) ==
      if h.NoHead? || !HeadOk(h.t) then false
      else if Children(h.t) == 0 then Accepts(s[h.len..], below + [n - 1], max)
      else |below| + 1 < max && Accepts(s[h.len..], below + [n - 1] + [Children(h.t)], max)
  {
    hide ReadHead, ParseForest, ValidUtf8, Accepts, LevelOk;
    var h := ReadHead(s);
    ForestUnfold(s, n);
    AcceptsUnfold(s, below, n, max);
    assert LevelOk(NoForest, s, below, max) == false by { LevelNone(s, below, max); }
    if h.Read? {
      var rest, c := s[h.len..], Children(h.t);
      var kids := ParseForest(rest, c);
      if c == 0 {
        ForestZero(rest);
        AcceptsUnfold(rest, below, n - 1, max);
      } else {
        AcceptsUnfold(rest, below + [n - 1], c, max);
        LevelNone(rest, below + [n - 1], max);
      }
      if kids.Trees? {
        var at := h.len + kids.used;
        LevelCons(h.t, kids.vs, at, ParseForest(s[at..], n - 1), s, below, max);
        assert rest[kids.used..] == s[at..];
        AcceptsUnfold(s[at..], below, n - 1, max);
        LevelParts(kids, rest, below + [n - 1], max);
      }
    }
  }

  lemma LevelNone(s: seq<byte>, below: seq<nat>, max: nat)
    ensures !LevelOk(NoForest, s, below, max)
  {
  }

  lemma LevelParts(f: Forest, s: seq<byte>, below: seq<nat>, max: nat)
    requires f.Trees? && f.used <= |s|
    ensures LevelOk(f, s, below, max) <==>
      AllStringsOk(f.vs) && MaxDepth(f.vs) + |below| <= max && Accepts(s[f.used..], below, max)
  {
  }

  lemma SingleDepth(v: Value)
    ensures MaxDepth([v]) == Depth(v)
  {
    assert MaxDepth([v][1..]) == 0;
  }

  /** The whole buffer is one value of the grammar, with UTF-8 strings, nested at most `max` deep. */
  ghost predicate ValidPayload(s: seq<byte>, max: nat) {
    exists v :: Derives(v, s) && StringsOk(v) && Depth(v) <= max
  }

  lemma AcceptsIsGrammar(s: seq<byte>, max: nat)
    ensures Accepts(s, [1], max) <==> ValidPayload(s, max)
  {
    hide ReadHead, ParseForest, ValidUtf8, StringsOk;
    assert [] + [1] == [1];
    AcceptsUnfold(s, [], 1, max);
    var r := ParseForest(s, 1);
    if Accepts(s, [1], max) {
      var v := r.vs[0];
      assert r.vs == [v] && s[r.used..] == [];
      ParseIsGrammar(s, v);
      SingleStrings(v);
      SingleDepth(v);
    }
    if v :| Derives(v, s) && StringsOk(v) && Depth(v) <= max {
      ParseIsGrammar(s, v);
      SingleStrings(v);
      SingleDepth(v);
      assert s[|s|..] == [];
    }
  }

  // ---- the cursor ----

  /** What `value_step` owes for the head of `s`: its children, and the cursor moved past it. */
  predicate Stepped(s: seq<byte>, r: Option<nat>, from: nat, to: nat) {
    var h := ReadHead(s);
    if h.Read? && HeadOk(h.t) then r == Some(Children(h.t)) && to == from + h.len else r.None?
  }

  /** What a typed read owes for the head of `s`: `want`'s value and the cursor past it, or nothing moved. */
  predicate ReadBack<T(==)>(s: seq<byte>, want: Token -> Option<T>, r: Option<T>, from: nat, to: nat) {
    var h := ReadHead(s);
    if h.Read? && want(h.t).Some? then r == want(h.t) && to == from + h.len else r.None? && to == from
  }

  predicate InI64(n: int) {
    -0x8000_0000_0000_0000 <= n < 0x8000_0000_0000_0000
  }

  predicate InU64(n: int) {
    0 <= n < 0x1_0000_0000_0000_0000
  }

  // The value each typed read is after, if the head is of its kind.
  function AsNil(t: Token): Option<()> { if t.TNil? then Some(()) else None }
  function AsBool(t: Token): Option<bool> { if t.TBool? then Some(t.b) else None }
  function AsI64(t: Token): Option<int> { if t.TInt? && InI64(t.n) then Some(t.n) else None }
  function AsU64(t: Token): Option<int> { if t.TInt? && InU64(t.n) then Some(t.n) else None }
  function AsFloat(t: Token): Option<seq<byte>> { if t.TFloat? then Some(t.raw) else None }
  function AsStr(t: Token): Option<seq<byte>> { if t.TStr? && ValidUtf8(t.s) then Some(t.s) else None }
  function AsBin(t: Token): Option<seq<byte>> { if t.TBin? then Some(t.s) else None }
  function AsExt(t: Token): Option<(byte, seq<byte>)> { if t.TExt? then Some((t.ty, t.s)) else None }
  function AsArray(t: Token): Option<nat> { if t.TArray? then Some(t.count) else None }
  function AsMap(t: Token): Option<nat> { if t.TMap? then Some(t.count) else None }

  // What each lead byte leads to, range by range.

  /** The width of a length in the 8-, 16- and 32-bit forms, and of an integer in its four forms. */
  function Width(i: int): nat { if i == 0 then 1 else if i == 1 then 2 else if i == 2 then 4 else 8 }

  function FixExtLen(b: int): nat {
    if b == 0xd4 then 1 else if b == 0xd5 then 2 else if b == 0xd6 then 4 else if b == 0xd7 then 8 else 16
  }

  lemma BinHead(s: seq<byte>)
    requires s != []
    ensures var b: int := s[0];
      if 0xc4 <= b <= 0xc6 then ReadHead(s) == ReadSized(s, Width(b - 0xc4), KBin)
      else ReadHead(s).Read? ==> AsBin(ReadHead(s).t).None?
  {
    hide BeAt;
  }

  lemma StrHead(s: seq<byte>)
    requires s != []
    ensures var b: int := s[0];
      if 0xa0 <= b < 0xc0 then ReadHead(s) == ReadBody(s, 1, b - 0xa0, KStr)
      else if 0xd9 <= b <= 0xdb then ReadHead(s) == ReadSized(s, Width(b - 0xd9), KStr)
      else ReadHead(s).Read? ==> !ReadHead(s).t.TStr?
  {
    hide BeAt;
  }

  lemma ExtHead(s: seq<byte>)
    requires s != []
    ensures var b: int := s[0];
      if 0xd4 <= b <= 0xd8 then ReadHead(s) == ReadBody(s, 1, FixExtLen(b), KExt)
      else if 0xc7 <= b <= 0xc9 then ReadHead(s) == ReadSized(s, Width(b - 0xc7), KExt)
      else ReadHead(s).Read? ==> AsExt(ReadHead(s).t).None?
  {
    hide BeAt;
  }

  lemma IntHead(s: seq<byte>)
    requires s != []
    ensures var b: int := s[0];
      if b < 0x80 then ReadHead(s) == Read(TInt(b), 1)
      else if b >= 0xe0 then ReadHead(s) == Read(TInt(b - 256), 1)
      else if 0xcc <= b <= 0xcf then ReadHead(s) == ReadUint(s, Width(b - 0xcc))
      else if 0xd0 <= b <= 0xd3 then ReadHead(s) == ReadSint(s, Width(b - 0xd0))
      else ReadHead(s).Read? ==> !ReadHead(s).t.TInt?
  {
    hide BeAt;
  }

  lemma ArrayHead(s: seq<byte>)
    requires s != []
    ensures var b: int := s[0];
      if 0x90 <= b < 0xa0 then ReadHead(s) == Read(TArray(b - 0x90), 1)
      else if b == 0xdc || b == 0xdd then ReadHead(s) == ReadCount(s, if b == 0xdc then 2 else 4, false)
      else ReadHead(s).Read? ==> AsArray(ReadHead(s).t).None?
  {
    hide BeAt;
  }

  lemma MapHead(s: seq<byte>)
    requires s != []
    ensures var b: int := s[0];
      if 0x80 <= b < 0x90 then ReadHead(s) == Read(TMap(b - 0x80), 1)
      else if b == 0xde || b == 0xdf then ReadHead(s) == ReadCount(s, if b == 0xde then 2 else 4, true)
      else ReadHead(s).Read? ==> AsMap(ReadHead(s).t).None?
  {
    hide BeAt;
  }

  lemma NothingHere()
    ensures ReadHead([]).NoHead?
  {
  }

  lemma SizedIs(s: seq<byte>, w: nat, k: Kind)
    ensures ReadSized(s, w, k) == if |s| < 1 + w then NoHead else ReadBody(s, 1 + w, FromBE(s[1..1 + w]), k)
  {
  }

  lemma IntIs(s: seq<byte>, w: nat)
    requires w > 0
    ensures |s| < 1 + w ==> ReadUint(s, w) == ReadSint(s, w) == NoHead
    ensures |s| >= 1 + w ==>
      var n := FromBE(s[1..1 + w]);
      && n < Pow256(w) && Pow256(w) % 2 == 0
      && ReadUint(s, w) == Read(TInt(n), 1 + w) && ReadSint(s, w) == Read(TInt(Signed(n, Pow256(w))), 1 + w)
  {
    hide FromBE, Signed, Pow256;
    PowEven(w);
    if |s| >= 1 + w {
      BeInverse(s[1..1 + w]);
    }
  }

  lemma PowEven(w: nat)
    requires w > 0
    ensures Pow256(w) % 2 == 0
  {
    var p := Pow256(w - 1);
    assert Pow256(w) == 2 * (128 * p);
  }

  lemma SizedKind(s: seq<byte>, w: nat, k: Kind)
    ensures var h := ReadSized(s, w, k); h.Read? ==>
      match k case KStr => h.t.TStr? case KBin => h.t.TBin? case KExt => h.t.TExt?
  {
    hide BeAt;
  }

  class Cursor {
    const buf: seq<byte>
    var pos: nat

    ghost predicate Valid()
      reads this
    {
      pos <= |buf|
    }

    /** The unread bytes. */
    ghost function Rest(): seq<byte>
      requires Valid()
      reads this
    {
      buf[pos..]
    }

    /** The head at the cursor. */
    ghost function Next(): Head
      requires Valid()
      reads this
    {
      ReadHead(buf[pos..])
    }

    constructor (bytes: seq<byte>)
      ensures Valid() && buf == bytes && pos == 0
    {
      buf := bytes;
      pos := 0;
    }

    method Take1() returns (r: Option<byte>)
      requires Valid()
      modifies this
      ensures Valid()
      ensures if old(pos) < |buf| then r == Some(buf[old(pos)]) && pos == old(pos) + 1
              else r.None? && pos == old(pos)
    {
      if pos >= |buf| { return None; }
      r := Some(buf[pos]);
      pos := pos + 1;
    }

    method Take(n: nat) returns (r: Option<seq<byte>>)
      requires Valid()
      modifies this
      ensures Valid()
      ensures if old(pos) + n <= |buf| then r == Some(buf[old(pos)..old(pos) + n]) && pos == old(pos) + n
              else r.None? && pos == old(pos)
    {
      var end := pos + n;
      if end > |buf| { return None; }
      r := Some(buf[pos..end]);
      pos := end;
    }

    /** `be_u16`, `be_u32` and `be_u64`: a big-endian integer of `w` bytes. */
    method BeUint(w: nat) returns (r: Option<nat>)
      requires Valid()
      modifies this
      ensures Valid()
      ensures if old(pos) + w <= |buf| then r == Some(FromBE(buf[old(pos)..old(pos) + w])) && pos == old(pos) + w
              else r.None? && pos == old(pos)
    {
      var s := Take(w);
      match s {
        case None => r := None;
        case Some(b) => r := Some(FromBE(b));
      }
    }

    // ---- value_step ----

    /** A length-prefixed leaf: the length, a type byte for an extension, then the payload. */
    method SizedLeaf(w: nat, k: Kind) returns (r: Option<nat>)
      requires Valid() && pos > 0
      modifies this
      ensures Valid()
      ensures var h := ReadSized(buf[old(pos) - 1..], w, k);
        if h.Read? && HeadOk(h.t) then r == Some(0) && pos == old(pos) - 1 + h.len else r.None?
    {
      hide FromBE, ReadSized, ValidUtf8;
      var start := pos - 1;
      ghost var s := buf[start..];
      SizedIs(s, w, k);
      var n := BeUint(w);
      if n.None? { return None; }
      assert s[1..1 + w] == buf[start + 1..start + 1 + w];
      var body := Take(if k == KExt then 1 + n.value else n.value);
      if body.None? { return None; }
      if k == KStr {
        assert body.value == s[1 + w..1 + w + n.value];
        if !ValidUtf8(body.value) { return None; }
      }
      r := Some(0);
    }

    method FixedLeaf(n: nat) returns (r: Option<nat>)
      requires Valid()
      modifies this
      ensures Valid()
      ensures if old(pos) + n <= |buf| then r == Some(0) && pos == old(pos) + n else r.None?
    {
      var b := Take(n);
      r := if b.None? then None else Some(0);
    }

    method Count(w: nat, scale: nat) returns (r: Option<nat>)
      requires Valid() && pos > 0
      modifies this
      ensures Valid()
      ensures match BeAt(buf[old(pos) - 1..], w)
        case None => r.None?
        case Some(n) => r == Some(scale * n) && pos == old(pos) + w
    {
      ghost var s := buf[pos - 1..];
      var n := BeUint(w);
      if n.None? { return None; }
      assert s[1..1 + w] == buf[pos - w..pos];
      r := Some(scale * n.value);
    }

    /** `value_step` on the lead bytes 0xc4 to 0xcf. */
    method StepC(b: byte) returns (r: Option<nat>)
      requires Valid() && pos > 0 && buf[pos - 1] == b && 0xc4 <= b <= 0xcf
      modifies this
      ensures Valid() && Stepped(buf[old(pos) - 1..], r, old(pos) - 1, pos)
    {
      if b == 0xc4 { r := SizedLeaf(1, KBin); }
      else if b == 0xc5 { r := SizedLeaf(2, KBin); }
      else if b == 0xc6 { r := SizedLeaf(4, KBin); }
      else if b == 0xc7 { r := SizedLeaf(1, KExt); }
      else if b == 0xc8 { r := SizedLeaf(2, KExt); }
      else if b == 0xc9 { r := SizedLeaf(4, KExt); }
      else if b == 0xcc { r := FixedLeaf(1); }
      else if b == 0xcd { r := FixedLeaf(2); }
      else if b == 0xca || b == 0xce { r := FixedLeaf(4); }
      else { r := FixedLeaf(8); }
    }

    /** `value_step` on the lead bytes 0xd0 to 0xdf. */
    method StepD(b: byte) returns (r: Option<nat>)
      requires Valid() && pos > 0 && buf[pos - 1] == b && 0xd0 <= b <= 0xdf
      modifies this
      ensures Valid() && Stepped(buf[old(pos) - 1..], r, old(pos) - 1, pos)
    {
      if b == 0xd0 { r := FixedLeaf(1); }
      else if b == 0xd1 { r := FixedLeaf(2); }
      else if b == 0xd2 { r := FixedLeaf(4); }
      else if b == 0xd3 { r := FixedLeaf(8); }
      else if b == 0xd4 { r := FixedLeaf(1 + 1); }
      else if b == 0xd5 { r := FixedLeaf(1 + 2); }
      else if b == 0xd6 { r := FixedLeaf(1 + 4); }
      else if b == 0xd7 { r := FixedLeaf(1 + 8); }
      else if b == 0xd8 { r := FixedLeaf(1 + 16); }
      else if b == 0xd9 { r := SizedLeaf(1, KStr); }
      else if b == 0xda { r := SizedLeaf(2, KStr); }
      else if b == 0xdb { r := SizedLeaf(4, KStr); }
      else if b == 0xdc { r := Count(2, 1); }
      else if b == 0xdd { r := Count(4, 1); }
      else if b == 0xde { r := Count(2, 2); }
      else { r := Count(4, 2); }
    }

    /** Consumes one head and its leaf bytes and returns how many values follow it. */
    method ValueStep() returns (r: Option<nat>)
      requires Valid()
      modifies this
      ensures Valid() && Stepped(old(Rest()), r, old(pos), pos)
    {
      var lead := Take1();
      if lead.None? { return None; }
      var b := lead.value;
      if b < 0x80 || b >= 0xe0 || b == 0xc0 || b == 0xc2 || b == 0xc3 {
        r := Some(0);
      } else if b < 0x90 {
        r := Some(2 * (b - 0x80));
      } else if b < 0xa0 {
        r := Some(b - 0x90);
      } else if b < 0xc0 {
        var s := Take(b - 0xa0);
        if s.None? { return None; }
        assert s.value == old(Rest())[1..1 + (b - 0xa0)];
        if !ValidUtf8(s.value) { return None; }
        r := Some(0);
      } else if b == 0xc1 {
        r := None;
      } else if b < 0xd0 {
        r := StepC(b);
      } else {
        r := StepD(b);
      }
    }
  
    // ---- typed reads ----

    method ReadNil() returns (r: Option<()>)
      requires Valid()
      modifies this
      ensures Valid() && ReadBack(old(Rest()), AsNil, r, old(pos), pos)
    {
      if pos < |buf| && buf[pos] == 0xc0 {
        pos := pos + 1;
        return Some(());
      }
      r := None;
    }

    method ReadBool() returns (r: Option<bool>)
      requires Valid()
      modifies this
      ensures Valid() && ReadBack(old(Rest()), AsBool, r, old(pos), pos)
    {
      if pos < |buf| && (buf[pos] == 0xc2 || buf[pos] == 0xc3) {
        r := Some(buf[pos] == 0xc3);
        pos := pos + 1;
      } else {
        r := None;
      }
    }

    /** An integer of `w` bytes after the lead byte just taken, signed or not. */
    method IntBody(w: nat, signed: bool) returns (r: Option<int>)
      requires Valid() && pos > 0 && w > 0
      modifies this
      ensures Valid()
      ensures var h := if signed then ReadSint(buf[old(pos) - 1..], w) else ReadUint(buf[old(pos) - 1..], w);
        if h.Read? then r == Some(h.t.n) && pos == old(pos) - 1 + h.len else r.None?
    {
      hide FromBE, ReadUint, ReadSint, Pow256, Signed;
      ghost var s := buf[pos - 1..];
      IntIs(s, w);
      var n := BeUint(w);
      if n.None? { return None; }
      assert s[1..1 + w] == buf[pos - w..pos];
      r := Some(if signed then Signed(n.value, Pow256(w)) else n.value);
    }

    /** Any integer encoding, losslessly; the position is not restored on failure. */
    method ReadInt() returns (r: Option<int>)
      requires Valid()
      modifies this
      ensures Valid()
      ensures var h := old(Next());
        if h.Read? && h.t.TInt? then r == Some(h.t.n) && pos == old(pos) + h.len else r.None?
    {
      hide ReadHead, BeAt;
      if pos >= |buf| {
        NothingHere();
        return None;
      }
      IntHead(Rest());
      var b: int := buf[pos];
      if b < 0x80 || b >= 0xe0 {
        pos := pos + 1;
        r := Some(if b < 0x80 then b else b - 256);
      } else if 0xcc <= b <= 0xcf {
        pos := pos + 1;
        r := IntBody(Width(b - 0xcc), false);
      } else if 0xd0 <= b <= 0xd3 {
        pos := pos + 1;
        r := IntBody(Width(b - 0xd0), true);
      } else {
        r := None;
      }
    }

    method ReadI64() returns (r: Option<int>)
      requires Valid()
      modifies this
      ensures Valid() && ReadBack(old(Rest()), AsI64, r, old(pos), pos)
    {
      var save := pos;
      r := ReadInt();
      if r.None? || r.value < -0x8000_0000_0000_0000 || r.value > 0x7fff_ffff_ffff_ffff {
        pos := save;
        r := None;
      }
    }

    method ReadU64() returns (r: Option<int>)
      requires Valid()
      modifies this
      ensures Valid() && ReadBack(old(Rest()), AsU64, r, old(pos), pos)
    {
      var save := pos;
      r := ReadInt();
      if r.None? || r.value < 0 || r.value > 0xffff_ffff_ffff_ffff {
        pos := save;
        r := None;
      }
    }

    method ReadF64() returns (r: Option<seq<byte>>)
      requires Valid()
      modifies this
      ensures Valid() && ReadBack(old(Rest()), AsFloat, r, old(pos), pos)
    {
      var save := pos;
      if pos >= |buf| || (buf[pos] != 0xca && buf[pos] != 0xcb) { return None; }
      var w := if buf[pos] == 0xca then 4 else 8;
      pos := pos + 1;
      r := Take(w);
      if r.None? {
        pos := save;
      } else {
        assert r.value == old(Rest())[1..1 + w];
      }
    }

    /** The length of a body whose lead byte was just taken, in `w` bytes, and then the body. */
    method SizedBody(w: nat, k: Kind) returns (r: Option<(byte, seq<byte>)>)
      requires Valid() && pos > 0
      modifies this
      ensures Valid()
      ensures var h := ReadSized(buf[old(pos) - 1..], w, k);
        if h.Read? then r.Some? && r.value.1 == h.t.s && (k == KExt ==> r.value.0 == h.t.ty) && pos == old(pos) - 1 + h.len
        else r.None?
    {
      hide FromBE, ReadSized;
      var start := pos - 1;
      ghost var s := buf[start..];
      SizedIs(s, w, k);
      var n := BeUint(w);
      if n.None? { return None; }
      assert s[1..1 + w] == buf[start + 1..start + 1 + w];
      if k == KExt {
        var t := Take1();
        if t.None? { return None; }
        var body := Take(n.value);
        if body.None? { return None; }
        assert t.value == s[1 + w] && body.value == s[2 + w..2 + w + n.value];
        r := Some((t.value, body.value));
      } else {
        var body := Take(n.value);
        if body.None? { return None; }
        assert body.value == s[1 + w..1 + w + n.value];
        r := Some((0, body.value));
      }
    }

    method ReadStr() returns (r: Option<seq<byte>>)
      requires Valid()
      modifies this
      ensures Valid() && ReadBack(old(Rest()), AsStr, r, old(pos), pos)
    {
      hide ReadHead, ReadSized, ValidUtf8;
      var save := pos;
      if pos >= |buf| {
        NothingHere();
        return None;
      }
      StrHead(Rest());
      var b: int := buf[pos];
      pos := pos + 1;
      if 0xa0 <= b < 0xc0 {
        r := Take(b - 0xa0);
        if r.Some? {
          assert r.value == old(Rest())[1..1 + (b - 0xa0)];
        }
      } else if 0xd9 <= b <= 0xdb {
        var p := SizedBody(Width(b - 0xd9), KStr);
        SizedKind(buf[save..], Width(b - 0xd9), KStr);
        r := if p.None? then None else Some(p.value.1);
      } else {
        r := None;
      }
      if r.None? || !ValidUtf8(r.value) {
        pos := save;
        r := None;
      }
    }

    method ReadBin() returns (r: Option<seq<byte>>)
      requires Valid()
      modifies this
      ensures Valid() && ReadBack(old(Rest()), AsBin, r, old(pos), pos)
    {
      hide ReadHead, ReadSized;
      var save := pos;
      if pos >= |buf| {
        NothingHere();
        return None;
      }
      BinHead(Rest());
      var b: int := buf[pos];
      if !(0xc4 <= b <= 0xc6) { return None; }
      pos := pos + 1;
      var p := SizedBody(Width(b - 0xc4), KBin);
      SizedKind(buf[save..], Width(b - 0xc4), KBin);
      if p.None? {
        pos := save;
        return None;
      }
      r := Some(p.value.1);
    }

    method ReadExt() returns (r: Option<(byte, seq<byte>)>)
      requires Valid()
      modifies this
      ensures Valid() && ReadBack(old(Rest()), AsExt, r, old(pos), pos)
    {
      hide ReadHead, ReadSized, FixExtLen;
      var save := pos;
      if pos >= |buf| {
        NothingHere();
        return None;
      }
      ExtHead(Rest());
      var b: int := buf[pos];
      pos := pos + 1;
      if 0xd4 <= b <= 0xd8 {
        var n := FixExtLen(b);
        var t := Take1();
        var body := Take(n);
        r := if t.None? || body.None? then None else Some((t.value, body.value));
        if r.Some? {
          assert r.value.1 == old(Rest())[2..2 + n];
        }
      } else if 0xc7 <= b <= 0xc9 {
        r := SizedBody(Width(b - 0xc7), KExt);
        SizedKind(buf[save..], Width(b - 0xc7), KExt);
      } else {
        r := None;
      }
      if r.None? {
        pos := save;
      }
    }

    method ReadArray() returns (r: Option<nat>)
      requires Valid()
      modifies this
      ensures Valid() && ReadBack(old(Rest()), AsArray, r, old(pos), pos)
    {
      hide ReadHead, BeAt;
      var save := pos;
      if pos >= |buf| {
        NothingHere();
        return None;
      }
      ArrayHead(Rest());
      var b := buf[pos];
      pos := pos + 1;
      if 0x90 <= b < 0xa0 {
        r := Some(b - 0x90);
      } else if b == 0xdc || b == 0xdd {
        r := Count(if b == 0xdc then 2 else 4, 1);
      } else {
        r := None;
      }
      if r.None? {
        pos := save;
      }
    }

    method ReadMap() returns (r: Option<nat>)
      requires Valid()
      modifies this
      ensures Valid() && ReadBack(old(Rest()), AsMap, r, old(pos), pos)
    {
      hide ReadHead, BeAt;
      var save := pos;
      if pos >= |buf| {
        NothingHere();
        return None;
      }
      MapHead(Rest());
      var b := buf[pos];
      pos := pos + 1;
      if 0x80 <= b < 0x90 {
        r := Some(b - 0x80);
      } else if b == 0xde || b == 0xdf {
        r := Count(if b == 0xde then 2 else 4, 1);
      } else {
        r := None;
      }
      if r.None? {
        pos := save;
      }
    }

    /** Skips exactly one value, or restores the position. */
    method Skip() returns (ok: bool)
      requires Valid() && |buf| < Pow256(8)
      modifies this
      ensures Valid()
      ensures match Extent(old(Rest()), 1, true)
        case Some(m) => ok && pos == old(pos) + m
        case None => !ok && pos == old(pos)
    {
      hide ReadHead, ParseForest, HeadOk, Extent;
      var save := pos;
      var remaining: nat := 1;
      assert buf[save..] == old(Rest());
      while remaining > 0
        invariant Valid() && save <= pos
        invariant Extent(buf[save..], 1, true) ==
          match Extent(buf[pos..], remaining, true)
          case None => None
          case Some(m) => Some(pos - save + m)
        decreases |buf| - pos
      {
        remaining := remaining - 1;
        ghost var s := buf[pos..];
        ExtentStep(s, remaining + 1, true);
        var children := ValueStep();
        if children.None? {
          pos := save;
          return false;
        }
        assert buf[pos..] == s[ReadHead(s).len..];
        remaining := remaining + children.value;
        if remaining >= Pow256(8) {
          // checked_add overflowed: more values than any buffer has bytes
          ExtentTooMany(buf[pos..], remaining, true);
          pos := save;
          return false;
        }
      }
      ExtentZero(buf[pos..]);
      ok := true;
    }
  }

  /** The validator: a stack of outstanding counts, one level per open container. */
  method Validate(bytes: seq<byte>, maxDepth: nat) returns (ok: bool)
    ensures ok <==> 1 <= maxDepth <= 256 && ValidPayload(bytes, maxDepth)
  {
    hide ReadHead, ParseForest, ValidUtf8, Accepts;
    AcceptsIsGrammar(bytes, maxDepth);
    if bytes == [] || maxDepth == 0 || maxDepth > MAX_DEPTH {
      EmptyInvalid(maxDepth);
      return false;
    }
    var stack := new nat[MAX_DEPTH](_ => 0);
    var depth := 1;
    stack[0] := 1;
    var cur := new Cursor(bytes);
    assert stack[..1] == [1] && bytes[0..] == bytes;
    while true
      invariant cur.Valid() && cur.buf == bytes
      invariant 0 <= depth <= maxDepth
      invariant Accepts(bytes[cur.pos..], stack[..depth], maxDepth) == Accepts(bytes, [1], maxDepth)
      decreases |bytes| - cur.pos
    {
      depth := CloseLevels(stack, depth, bytes[cur.pos..], maxDepth);
      if depth == 0 {
        AcceptsDone(bytes[cur.pos..], maxDepth);
        assert stack[..0] == [];
        return cur.pos == |bytes|;
      }
      ghost var below, s := stack[..depth - 1], bytes[cur.pos..];
      assert stack[..depth] == below + [stack[depth - 1]];
      AcceptsStep(s, below, stack[depth - 1], maxDepth);
      stack[depth - 1] := stack[depth - 1] - 1;
      var children := cur.ValueStep();
      if children.None? {
        return false;
      }
      assert bytes[cur.pos..] == s[ReadHead(s).len..];
      assert stack[..depth] == below + [stack[depth - 1]];
      if children.value > 0 {
        if depth >= maxDepth {
          return false;
        }
        stack[depth] := children.value;
        depth := depth + 1;
        assert stack[..depth] == below + [stack[depth - 2]] + [children.value];
      }
    }
  }

  /** The inner loop: levels with nothing outstanding are closed. */
  method CloseLevels(stack: array<nat>, open: nat, ghost rest: seq<byte>, ghost max: nat) returns (depth: nat)
    requires open <= stack.Length && open <= max
    ensures depth <= open && (depth > 0 ==> stack[depth - 1] > 0)
    ensures Accepts(rest, stack[..depth], max) == Accepts(rest, stack[..open], max)
  {
    hide Accepts;
    depth := open;
    while depth > 0 && stack[depth - 1] == 0
      invariant depth <= open
      invariant Accepts(rest, stack[..depth], max) == Accepts(rest, stack[..open], max)
    {
      assert stack[..depth] == stack[..depth - 1] + [0];
      AcceptsPop(rest, stack[..depth - 1], max);
      depth := depth - 1;
    }
  }

  lemma AcceptsDone(s: seq<byte>, max: nat)
    ensures Accepts(s, [], max) <==> s == []
  {
  }

  lemma EmptyInvalid(max: nat)
    ensures max == 0 ==> forall s :: !ValidPayload(s, max)
    ensures !ValidPayload([], max)
  {
    hide ReadHead, ParseForest, ValidUtf8;
    AcceptsIsGrammar([], max);
    AcceptsUnfold([], [], 1, max);
    assert [] + [1] == [1];
  }
}
