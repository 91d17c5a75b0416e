/** The second, structural MessagePack reader: the port of the kernel's walker that checks audit contexts. */
module MsgPackWalker {
  import opened Bytes
  import opened Utf8
  import opened MsgPack
  import opened MsgPackGrammar
  import opened MsgPackCursor

  // ---- mp_skip_value ----

  /** What the walker's table says of a lead byte: bytes of lead and length, payload bytes, child values. */
  datatype Entry = NoEntry | Entry(used: nat, skip: nat, children: nat)

  function Prefixed(s: seq<byte>, w: nat, extra: nat): Entry {
    match BeAt(s, w)
    case None => NoEntry
    case Some(n) => Entry(1 + w, n + extra, 0)
  }

  function Counted(s: seq<byte>, w: nat, scale: nat): Entry {
    match BeAt(s, w)
    case None => NoEntry
    case Some(n) => Entry(1 + w, 0, scale * n)
  }

  /** The walker's table, on a non-empty suffix. */
  function TableEntry(s: seq<byte>): Entry
    requires s != []
  {
    var tag := s[0];
    if tag <= 0x7f || tag == 0xc0 || tag == 0xc2 || tag == 0xc3 || tag >= 0xe0 then Entry(1, 0, 0)
    else if tag <= 0x8f then Entry(1, 0, (tag - 0x80) * 2)
    else if tag <= 0x9f then Entry(1, 0, tag - 0x90)
    else if tag <= 0xbf then Entry(1, tag - 0xa0, 0)
    else if tag == 0xc4 || tag == 0xd9 then Prefixed(s, 1, 0)
    else if tag == 0xc5 || tag == 0xda then Prefixed(s, 2, 0)
    else if tag == 0xc6 || tag == 0xdb then Prefixed(s, 4, 0)
    else if tag == 0xc7 then Prefixed(s, 1, 1)
    else if tag == 0xc8 then Prefixed(s, 2, 1)
    else if tag == 0xc9 then Prefixed(s, 4, 1)
    else if tag == 0xca then Entry(1, 4, 0)
    else if tag == 0xcb then Entry(1, 8, 0)
    else if tag == 0xcc || tag == 0xd0 then Entry(1, 1, 0)
    else if tag == 0xcd || tag == 0xd1 then Entry(1, 2, 0)
    else if tag == 0xce || tag == 0xd2 then Entry(1, 4, 0)
    else if tag == 0xcf || tag == 0xd3 then Entry(1, 8, 0)
    else if tag == 0xd4 then Entry(1, 2, 0)
    else if tag == 0xd5 then Entry(1, 3, 0)
    else if tag == 0xd6 then Entry(1, 5, 0)
    else if tag == 0xd7 then Entry(1, 9, 0)
    else if tag == 0xd8 then Entry(1, 17, 0)
    else if tag == 0xdc then Counted(s, 2, 1)
    else if tag == 0xdd then Counted(s, 4, 1)
    else if tag == 0xde then Counted(s, 2, 2)
    else if tag == 0xdf then Counted(s, 4, 2)
    else NoEntry
  }

  /** The walker's table and the codec's reader describe the same heads, UTF-8 apart. */
  ghost predicate SameHead(s: seq<byte>)
    requires s != []
  {
    var h, e := ReadHead(s), TableEntry(s);
    if e.Entry? && e.used + e.skip <= |s| then h.Read? && h.len == e.used + e.skip && Children(h.t) == e.children
    else h.NoHead?
  }

  lemma SameHeadC(s: seq<byte>)
    requires s != [] && 0xc0 <= s[0] <= 0xc6
    ensures SameHead(s)
  {
  }

  lemma SameHeadC1(s: seq<byte>)
    requires s != [] && 0xc7 <= s[0] <= 0xc9
    ensures SameHead(s)
  {
  }

  lemma SameHeadC2(s: seq<byte>)
    requires s != [] && 0xca <= s[0] <= 0xcf
    ensures SameHead(s)
  {
  }

  lemma SameHeadD(s: seq<byte>)
    requires s != [] && 0xd0 <= s[0] <= 0xd8
    ensures SameHead(s)
  {
    hide FromBE;
  }

  lemma SameHeadD1(s: seq<byte>)
    requires s != [] && 0xd9 <= s[0] <= 0xdf
    ensures SameHead(s)
  {
    hide FromBE;
  }

  lemma TablesAgree(s: seq<byte>)
    requires s != []
    ensures SameHead(s)
  {
    if 0xc0 <= s[0] <= 0xc6 {
      SameHeadC(s);
    } else if 0xc7 <= s[0] <= 0xc9 {
      SameHeadC1(s);
    } else if 0xca <= s[0] <= 0xcf {
      SameHeadC2(s);
    } else if 0xd0 <= s[0] <= 0xd8 {
      SameHeadD(s);
    } else if 0xd9 <= s[0] <= 0xdf {
      SameHeadD1(s);
    }
  }

  /**
   * Steps over one value, or says there is none: exactly what the plain worklist over the grammar
   * decides, so the early `pending > bytes left` exit changes neither the verdict nor the end.
   */
  method SkipValue(bytes: seq<byte>, start: nat) returns (r: Option<nat>)
    requires start <= |bytes| < Pow256(8)
    ensures r == match Extent(bytes[start..], 1, false)
      case None => None
      case Some(m) => Some(start + m)
  {
    hide ReadHead, ParseForest, ValidUtf8, TableEntry;
    var pos := start;
    var pending: nat := 1;
    while pending > 0
      invariant start <= pos <= |bytes|
      invariant Extent(bytes[start..], 1, false) ==
        match Extent(bytes[pos..], pending, false)
        case None => None
        case Some(m) => Some(pos - start + m)
      decreases |bytes| - pos
    {
      ghost var s := bytes[pos..];
      ExtentStep(s, pending, false);
      pending := pending - 1;
      if pos == |bytes| {
        NoHeadInNothing();
        return None;
      }
      TablesAgree(s);
      var e := TableEntry(bytes[pos..]);
      if e.NoEntry? { return None; }
      var end := pos + e.used + e.skip;
      if end > |bytes| { return None; }
      pos := end;
      assert bytes[pos..] == s[e.used + e.skip..];
      pending := pending + e.children;
      if pending > |bytes| - pos {
        ExtentTooMany(bytes[pos..], pending, false);
        return None;
      }
    }
    ForestZero(bytes[pos..]);
    r := Some(pos);
  }

  lemma NoHeadInNothing()
    ensures ReadHead([]).NoHead?
  {
  }

  /**
   * The two walkers differ only on UTF-8: they end at the same place whenever the strict one
   * succeeds, and when only the lax one does, the value holds a string that is not UTF-8.
   */
  lemma WalkersDifferOnlyOnUtf8(s: seq<byte>, m: nat)
    requires m <= |s|
    ensures Extent(s, 1, true) == Some(m) ==> Extent(s, 1, false) == Some(m)
    ensures Extent(s, 1, false) == Some(m) && Extent(s, 1, true) != Some(m) ==>
      exists v :: Derives(v, s[..m]) && !StringsOk(v)
  {
    hide ReadHead, ParseForest, ValidUtf8, StringsOk, Extent;
    ExtentIsGrammar(s, m, true);
    ExtentIsGrammar(s, m, false);
  }

  // ---- map heads and strings ----

  datatype MapAt = NoMap | MapAt(count: nat, end: nat)

  /** `mp_map_len`: the pair count of a map head, and where it ends. */
  function MapLen(bytes: seq<byte>, pos: nat): (r: MapAt)
    requires pos <= |bytes|
  {
    if pos == |bytes| then NoMap else
    var tag, s := bytes[pos], bytes[pos..];
    if 0x80 <= tag <= 0x8f then MapAt(tag - 0x80, pos + 1)
    else if tag == 0xde || tag == 0xdf then
      var w := if tag == 0xde then 2 else 4;
      (match BeAt(s, w) case None => NoMap case Some(n) => MapAt(n, pos + 1 + w))
    else NoMap
  }

  lemma MapLenIsHead(bytes: seq<byte>, pos: nat)
    requires pos <= |bytes|
    ensures var h := ReadHead(bytes[pos..]);
      MapLen(bytes, pos) == if h.Read? && h.t.TMap? then MapAt(h.t.count, pos + h.len) else NoMap
  {
    var s := bytes[pos..];
    if s != [] && (0x80 <= s[0] <= 0x8f || 0xde <= s[0] <= 0xdf) {
      MapHead(s);
    } else {
      NotMapHead(s);
    }
  }

  lemma MapHead(s: seq<byte>)
    requires s != [] && (0x80 <= s[0] <= 0x8f || 0xde <= s[0] <= 0xdf)
    ensures ReadHead(s) ==
      if s[0] <= 0x8f then Read(TMap(s[0] - 0x80), 1)
      else ReadCount(s, if s[0] == 0xde then 2 else 4, true)
  {
  }

  lemma NotMapHead(s: seq<byte>)
    requires s == [] || !(0x80 <= s[0] <= 0x8f || 0xde <= s[0] <= 0xdf)
    ensures var h := ReadHead(s); h.Read? ==> !h.t.TMap?
  {
  }

  datatype StrAt = NoStr | StrAt(s: seq<byte>, end: nat)

  /** `mp_str`: a UTF-8 string, and where it ends. */
  function MpStr(bytes: seq<byte>, pos: nat): (r: StrAt)
    requires pos <= |bytes|
  {
    if pos == |bytes| then NoStr else
    var tag, s := bytes[pos], bytes[pos..];
    if 0xa0 <= tag <= 0xbf then StrBody(s, pos, 1, tag - 0xa0)
    else if 0xd9 <= tag <= 0xdb then
      var w := if tag == 0xd9 then 1 else if tag == 0xda then 2 else 4;
      (match BeAt(s, w) case None => NoStr case Some(n) => StrBody(s, pos, 1 + w, n))
    else NoStr
  }

  function StrBody(s: seq<byte>, pos: nat, skip: nat, n: nat): StrAt {
    if |s| < skip + n || !ValidUtf8(s[skip..skip + n]) then NoStr else StrAt(s[skip..skip + n], pos + skip + n)
  }

  lemma MpStrIsHead(bytes: seq<byte>, pos: nat)
    requires pos <= |bytes|
    ensures var h := ReadHead(bytes[pos..]);
      MpStr(bytes, pos) == if h.Read? && h.t.TStr? && ValidUtf8(h.t.s) then StrAt(h.t.s, pos + h.len) else NoStr
  {
    hide ValidUtf8;
  }
}
