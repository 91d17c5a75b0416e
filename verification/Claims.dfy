/**
 * Claim attributes on the wire: two encoders that lay the same claim out differently, and the
 * offset-following reader of the documented format, to which they are the same claim.
 */
module Claims {
  import opened Bytes
  import opened Utf16
  import opened SidWire

  const U32 := 0x1_0000_0000
  const U64 := 0x1_0000_0000_0000_0000

  datatype Value =
    | Int64(n: int)
    | UInt64(u: nat)
    | Boolean(on: bool)
    | Text(s: string)
    | SidValue(sid: Sid)
    | Octets(data: seq<byte>)

  const KINDS := {1, 2, 3, 5, 6, 16}

  /** `type_code`: the `CLAIM_SECURITY_ATTRIBUTE` type (section 2.4.10.1 of MS-DTYP). */
  function Kind(v: Value): (k: nat)
    ensures k in KINDS
  {
    match v
    case Int64(_) => 1 case UInt64(_) => 2 case Text(_) => 3
    case SidValue(_) => 5 case Boolean(_) => 6 case Octets(_) => 16
  }

  /** A named, typed, multi-valued attribute. */
  datatype Claim = Claim(name: string, kind: nat, flags: nat, values: seq<Value>)

  predicate Inline(kind: nat) {
    kind == 1 || kind == 2 || kind == 6
  }

  predicate NulFree(s: string) {
    '\0' !in s
  }

  /** Every field is in the range of its Rust type. */
  predicate TypedValue(v: Value) {
    match v
    case Int64(n) => -(U64 / 2) <= n < U64 / 2
    case UInt64(u) => u < U64
    case SidValue(sid) => TypedSid(sid)
    case _ => true
  }

  /** The values the format can express. */
  predicate Sound(v: Value) {
    && TypedValue(v)
    && match v
       case Text(s) => NulFree(s)
       case SidValue(sid) => CanonicalSid(sid)
       case _ => true
  }

  predicate Uniform(values: seq<Value>, kind: nat) {
    forall i :: 0 <= i < |values| ==> Kind(values[i]) == kind
  }

  predicate Typed(c: Claim) {
    && c.kind in KINDS && c.flags < U32 && |c.values| < U32 && Uniform(c.values, c.kind)
    && forall i :: 0 <= i < |c.values| ==> TypedValue(c.values[i])
  }

  predicate SoundClaim(c: Claim) {
    Typed(c) && NulFree(c.name) && forall i :: 0 <= i < |c.values| ==> Sound(c.values[i])
  }

  // ---- the pieces of an entry ----

  /** UTF-16LE with its terminator. */
  function CStr(s: string): seq<byte> {
    Utf16LE(s) + [0, 0]
  }

  function InlineBytes(v: Value): (b: seq<byte>)
    requires TypedValue(v)
    ensures |b| == 8
  {
    match v
    case Int64(n) => ToLE(Wrap(n, U64), 8)
    case UInt64(u) => ToLE(u, 8)
    case Boolean(on) => ToLE(if on then 1 else 0, 8)
    case _ => ToLE(0, 8)
  }

  /** What an indirect value keeps outside its slot. */
  function Data(v: Value): seq<byte> {
    match v
    case Text(s) => CStr(s)
    case SidValue(sid) => EncodeSid(sid)
    case Octets(data) => ToLE(|data|, 4) + data
    case _ => []
  }

  function Width(kind: nat): nat {
    if Inline(kind) then 8 else 4
  }

  function SlotsSize(vs: seq<Value>): nat {
    if vs == [] then 0 else SlotsSize(vs[..|vs| - 1]) + Width(Kind(vs[|vs| - 1]))
  }

  function Datas(vs: seq<Value>): seq<byte> {
    if vs == [] then [] else Datas(vs[..|vs| - 1]) + Data(vs[|vs| - 1])
  }

  /** A slot: the value itself, or the offset of its data. */
  function Slot(v: Value, dataAt: nat): (b: seq<byte>)
    requires TypedValue(v)
    ensures |b| == Width(Kind(v))
  {
    if Inline(Kind(v)) then InlineBytes(v) else ToLE(dataAt, 4)
  }

  /** The slots, when the data region starts at `data0`. */
  function Slots(vs: seq<Value>, data0: nat): (b: seq<byte>)
    requires forall i :: 0 <= i < |vs| ==> TypedValue(vs[i])
    ensures |b| == SlotsSize(vs)
  {
    if vs == [] then []
    else Slots(vs[..|vs| - 1], data0) + Slot(vs[|vs| - 1], data0 + |Datas(vs[..|vs| - 1])|)
  }

  /** The value-offset array, when the slots start at `slots0`. */
  function Table(vs: seq<Value>, slots0: nat): (b: seq<byte>)
    ensures |b| == 4 * |vs|
  {
    if vs == [] then [] else Table(vs[..|vs| - 1], slots0) + ToLE(slots0 + SlotsSize(vs[..|vs| - 1]), 4)
  }

  function Header(c: Claim, nameAt: nat): (b: seq<byte>)
    ensures |b| == 16
  {
    ToLE(nameAt, 4) + ToLE(c.kind, 2) + [0, 0] + ToLE(c.flags, 4) + ToLE(|c.values|, 4)
  }

  /** Where the fixed part ends. */
  function Prefix(c: Claim): nat {
    16 + 4 * |c.values|
  }

  /** `ClaimAttribute::encode`: the name comes before the slots. */
  function NameFirst(c: Claim): seq<byte>
    requires Typed(c)
  {
    var slots0 := Prefix(c) + |CStr(c.name)|;
    Header(c, Prefix(c)) + Table(c.values, slots0) + CStr(c.name)
    + Slots(c.values, slots0 + SlotsSize(c.values)) + Datas(c.values)
  }

  /** Where `encode_claim` puts the name: after everything else. */
  function NameLastAt(c: Claim): nat {
    Prefix(c) + SlotsSize(c.values) + |Datas(c.values)|
  }

  function NameLast(c: Claim): seq<byte>
    requires Typed(c)
  {
    Header(c, NameLastAt(c)) + Table(c.values, Prefix(c))
    + Slots(c.values, Prefix(c) + SlotsSize(c.values)) + Datas(c.values) + CStr(c.name)
  }

  // ---- the reader ----

  function Num(p: seq<byte>, at: nat, k: nat): Option<nat> {
    if at + k <= |p| then Some(FromLE(p[at..at + k])) else None
  }

  /** A NUL-terminated UTF-16LE string: the units before the first zero one, `k` bytes on. */
  function ReadCStr(p: seq<byte>, k: nat): Option<string>
    requires k % 2 == 0 && k <= |p|
    decreases |p| - k
  {
    if |p| < k + 2 then None
    else if p[k] == 0 && p[k + 1] == 0 then FromUtf16LE(p[..k])
    else ReadCStr(p, k + 2)
  }

  function TextAt(p: seq<byte>, at: nat): Option<string> {
    if at <= |p| then ReadCStr(p[at..], 0) else None
  }

  function ReadInline(kind: nat, w: nat): Option<Value>
    requires w < U64
  {
    if kind == 1 then Some(Int64(Signed(w, U64)))
    else if kind == 2 then Some(UInt64(w))
    else if w <= 1 then Some(Boolean(w == 1))
    else None
  }

  function ReadData(p: seq<byte>, kind: nat, at: nat): Option<Value> {
    if at > |p| then None
    else if kind == 3 then (match TextAt(p, at) case None => None case Some(s) => Some(Text(s)))
    else if kind == 5 then (match ParseSid(p[at..]) case NoSid => None case SidAt(sid, _) => Some(SidValue(sid)))
    else
      match Num(p, at, 4)
      case None => None
      case Some(n) => if at + 4 + n <= |p| then Some(Octets(p[at + 4..at + 4 + n])) else None
  }

  function ReadSlot(p: seq<byte>, kind: nat, at: nat): Option<Value> {
    if Inline(kind) then
      if at + 8 > |p| then None
      else
        LeInverse(p[at..at + 8]);
        PowValues();
        ReadInline(kind, FromLE(p[at..at + 8]))
    else
      match Num(p, at, 4) case None => None case Some(ptr) => ReadData(p, kind, ptr)
  }

  function ReadValue(p: seq<byte>, kind: nat, i: nat): Option<Value> {
    match Num(p, 16 + 4 * i, 4) case None => None case Some(at) => ReadSlot(p, kind, at)
  }

  function ReadValues(p: seq<byte>, kind: nat, n: nat): Option<seq<Value>> {
    if n == 0 then Some([])
    else
      match ReadValues(p, kind, n - 1)
      case None => None
      case Some(front) =>
        match ReadValue(p, kind, n - 1)
        case None => None
        case Some(v) => Some(front + [v])
  }

  /** One entry: header, name, and every value by its own offset. */
  function ReadClaim(p: seq<byte>): Option<Claim> {
    if |p| < 16 then None
    else
      var kind := FromLE(p[4..6]);
      match TextAt(p, FromLE(p[0..4]))
      case None => None
      case Some(name) =>
        match ReadValues(p, kind, FromLE(p[12..16]))
        case None => None
        case Some(values) => Some(Claim(name, kind, FromLE(p[8..12]), values))
  }

  // ---- where things are ----

  predicate HoldsAt(p: seq<byte>, at: nat, data: seq<byte>) {
    at + |data| <= |p| && p[at..at + |data|] == data
  }

  lemma HoldsParts(p: seq<byte>, at: nat, a: seq<byte>, b: seq<byte>)
    requires HoldsAt(p, at, a + b)
    ensures HoldsAt(p, at, a) && HoldsAt(p, at + |a|, b)
  {
    var s := a + b;
    assert a == s[..|a|] && b == s[|a|..];
    assert p[at..at + |a|] == p[at..at + |s|][..|a|];
    assert p[at + |a|..at + |s|] == p[at..at + |s|][|a|..];
  }

  lemma HoldsNum(p: seq<byte>, at: nat, n: nat, k: nat)
    requires HoldsAt(p, at, ToLE(n, k)) && n < Pow256(k)
    ensures Num(p, at, k) == Some(n)
  {
    LeRoundTrip(n, k);
  }

  lemma {:induction false} TableHolds(p: seq<byte>, at: nat, vs: seq<Value>, slots0: nat, i: nat)
    requires HoldsAt(p, at, Table(vs, slots0)) && i < |vs|
    ensures HoldsAt(p, at + 4 * i, ToLE(slots0 + SlotsSize(vs[..i]), 4))
    decreases |vs|
  {
    hide HoldsAt, SlotsSize, ToLE;
    var front := vs[..|vs| - 1];
    HoldsParts(p, at, Table(front, slots0), ToLE(slots0 + SlotsSize(front), 4));
    if i < |front| {
      TableHolds(p, at, front, slots0, i);
      assert front[..i] == vs[..i];
    }
  }

  lemma {:induction false} SlotHolds(p: seq<byte>, at: nat, vs: seq<Value>, data0: nat, i: nat)
    requires forall j :: 0 <= j < |vs| ==> TypedValue(vs[j])
    requires HoldsAt(p, at, Slots(vs, data0)) && i < |vs|
    ensures HoldsAt(p, at + SlotsSize(vs[..i]), Slot(vs[i], data0 + |Datas(vs[..i])|))
    decreases |vs|
  {
    hide HoldsAt, SlotsSize, Slot, Datas, TypedValue;
    var front, last := vs[..|vs| - 1], vs[|vs| - 1];
    HoldsParts(p, at, Slots(front, data0), Slot(last, data0 + |Datas(front)|));
    if i < |front| {
      SlotHolds(p, at, front, data0, i);
      assert front[..i] == vs[..i];
    }
  }

  lemma {:induction false} DataHolds(p: seq<byte>, at: nat, vs: seq<Value>, i: nat)
    requires HoldsAt(p, at, Datas(vs)) && i < |vs|
    ensures HoldsAt(p, at + |Datas(vs[..i])|, Data(vs[i]))
    decreases |vs|
  {
    hide HoldsAt, Data;
    var front, last := vs[..|vs| - 1], vs[|vs| - 1];
    HoldsParts(p, at, Datas(front), Data(last));
    if i < |front| {
      DataHolds(p, at, front, i);
      assert front[..i] == vs[..i];
    }
  }

  // ---- reading one value ----

  lemma {:induction false} UnitsNulFree(s: string)
    requires NulFree(s)
    ensures forall i :: 0 <= i < |Units(s)| ==> Units(s)[i] != 0
  {
    if s != "" {
      assert s[0] in s && forall c :: c in s[1..] ==> c in s;
      UnitsNulFree(s[1..]);
    }
  }

  lemma {:induction false} UnitBytesAt(u: seq<unit>, i: nat)
    requires i < |u|
    ensures UnitBytes(u)[2 * i] == u[i] % 256 && UnitBytes(u)[2 * i + 1] == u[i] / 256
  {
    if i > 0 {
      UnitBytesAt(u[1..], i - 1);
    }
  }

  lemma {:induction false} CStrScan(u: seq<unit>, rest: seq<byte>, i: nat)
    requires i <= |u| && forall j :: 0 <= j < |u| ==> u[j] != 0
    ensures var p := UnitBytes(u) + [0, 0] + rest; ReadCStr(p, 2 * i) == FromUtf16LE(UnitBytes(u))
    decreases |u| - i
  {
    var p := UnitBytes(u) + [0, 0] + rest;
    if i < |u| {
      UnitBytesAt(u, i);
      assert u[i] != 0;
      assert p[2 * i] == UnitBytes(u)[2 * i] && p[2 * i + 1] == UnitBytes(u)[2 * i + 1];
      CStrScan(u, rest, i + 1);
    } else {
      assert p[2 * i] == 0 && p[2 * i + 1] == 0 && p[..2 * i] == UnitBytes(u);
    }
  }

  lemma TextReads(p: seq<byte>, at: nat, s: string)
    requires HoldsAt(p, at, CStr(s)) && NulFree(s)
    ensures TextAt(p, at) == Some(s)
  {
    hide ReadCStr, FromUtf16LE, UnitBytes, Units;
    var rest := p[at + |CStr(s)|..];
    assert p[at..] == CStr(s) + rest;
    UnitsNulFree(s);
    CStrScan(Units(s), rest, 0);
    Utf16RoundTrip(s);
  }

  lemma InlineReads(v: Value)
    requires TypedValue(v) && Inline(Kind(v))
    ensures FromLE(InlineBytes(v)) < U64 && ReadInline(Kind(v), FromLE(InlineBytes(v))) == Some(v)
  {
    PowValues();
    match v
    case Int64(n) => LeRoundTrip(Wrap(n, U64), 8);
    case UInt64(u) => LeRoundTrip(u, 8);
    case Boolean(on) => LeRoundTrip(if on then 1 else 0, 8);
  }

  lemma OctetsRead(p: seq<byte>, at: nat, data: seq<byte>)
    requires HoldsAt(p, at, Data(Octets(data))) && |data| < U32
    ensures ReadData(p, 16, at) == Some(Octets(data))
  {
    hide ToLE, FromLE, TextAt, ParseSid;
    PowValues();
    HoldsParts(p, at, ToLE(|data|, 4), data);
    HoldsNum(p, at, |data|, 4);
  }

  lemma SidReads(p: seq<byte>, at: nat, sid: Sid)
    requires HoldsAt(p, at, EncodeSid(sid)) && TypedSid(sid) && CanonicalSid(sid)
    ensures ReadData(p, 5, at) == Some(SidValue(sid))
  {
    hide ParseSid, EncodeSid, TextAt, TypedSid, CanonicalSid;
    var rest := p[at + |EncodeSid(sid)|..];
    assert p[at..] == EncodeSid(sid) + rest;
    SidRoundTripExact(sid, rest);
  }

  lemma DataReads(p: seq<byte>, at: nat, v: Value)
    requires HoldsAt(p, at, Data(v)) && Sound(v) && !Inline(Kind(v)) && |p| < U32
    ensures ReadData(p, Kind(v), at) == Some(v)
  {
    hide HoldsAt, ParseSid, EncodeSid, CStr;
    match v
    case Text(s) =>
      TextReads(p, at, s);
      HoldsInside(p, at, CStr(s));
    case SidValue(sid) => SidReads(p, at, sid);
    case Octets(data) =>
      HoldsInside(p, at, Data(v));
      OctetsRead(p, at, data);
  }

  lemma HoldsInside(p: seq<byte>, at: nat, data: seq<byte>)
    requires HoldsAt(p, at, data)
    ensures at + |data| <= |p|
  {
  }

  lemma SlotReads(p: seq<byte>, at: nat, v: Value, dataAt: nat)
    requires Sound(v) && |p| < U32 && dataAt < U32
    requires HoldsAt(p, at, Slot(v, dataAt)) && HoldsAt(p, dataAt, Data(v))
    ensures ReadSlot(p, Kind(v), at) == Some(v)
  {
    hide ReadData, ReadInline, Data, InlineBytes, ToLE, FromLE;
    if Inline(Kind(v)) {
      InlineReads(v);
    } else {
      PowValues();
      HoldsNum(p, at, dataAt, 4);
      DataReads(p, dataAt, v);
    }
  }

  // ---- reading an entry, wherever its parts are ----

  /** An entry of `c`: its parts are where its header and its offsets say. */
  predicate Placed(p: seq<byte>, c: Claim, nameAt: nat, slots0: nat, data0: nat)
    requires Typed(c)
  {
    && |p| < U32
    && HoldsAt(p, 0, Header(c, nameAt))
    && HoldsAt(p, 16, Table(c.values, slots0))
    && HoldsAt(p, slots0, Slots(c.values, data0))
    && HoldsAt(p, data0, Datas(c.values))
    && HoldsAt(p, nameAt, CStr(c.name))
  }

  lemma ValueReads(p: seq<byte>, c: Claim, nameAt: nat, slots0: nat, data0: nat, i: nat)
    requires SoundClaim(c) && Placed(p, c, nameAt, slots0, data0) && i < |c.values|
    ensures ReadValue(p, c.kind, i) == Some(c.values[i])
  {
    hide ReadSlot, Slot, Data, Datas, Slots, Table, SlotsSize, ToLE, FromLE, Header, CStr, HoldsAt, Sound, TypedValue;
    var vs, v := c.values, c.values[i];
    TableHolds(p, 16, vs, slots0, i);
    SlotHolds(p, slots0, vs, data0, i);
    DataHolds(p, data0, vs, i);
    var at, dataAt := slots0 + SlotsSize(vs[..i]), data0 + |Datas(vs[..i])|;
    HoldsInside(p, at, Slot(v, dataAt));
    HoldsInside(p, dataAt, Data(v));
    PowValues();
    HoldsNum(p, 16 + 4 * i, at, 4);
    assert Kind(v) == c.kind;
    SlotReads(p, at, v, dataAt);
  }

  lemma {:induction false} ValuesRead(p: seq<byte>, c: Claim, nameAt: nat, slots0: nat, data0: nat, n: nat)
    requires SoundClaim(c) && Placed(p, c, nameAt, slots0, data0) && n <= |c.values|
    ensures ReadValues(p, c.kind, n) == Some(c.values[..n])
  {
    hide ReadValue, Placed, SoundClaim;
    if n > 0 {
      ValuesRead(p, c, nameAt, slots0, data0, n - 1);
      ValueReads(p, c, nameAt, slots0, data0, n - 1);
      assert c.values[..n] == c.values[..n - 1] + [c.values[n - 1]];
    }
  }

  lemma HeaderReads(p: seq<byte>, c: Claim, nameAt: nat)
    requires Typed(c) && nameAt < U32 && HoldsAt(p, 0, Header(c, nameAt))
    ensures |p| >= 16 && FromLE(p[0..4]) == nameAt && FromLE(p[4..6]) == c.kind
      && FromLE(p[8..12]) == c.flags && FromLE(p[12..16]) == |c.values|
  {
    hide ToLE, FromLE, Uniform, TypedValue;
    PowValues();
    LeRoundTrip(nameAt, 4);
    LeRoundTrip(c.kind, 2);
    LeRoundTrip(c.flags, 4);
    LeRoundTrip(|c.values|, 4);
    var h := Header(c, nameAt);
    assert h[0..4] == ToLE(nameAt, 4) && h[4..6] == ToLE(c.kind, 2) && h[8..12] == ToLE(c.flags, 4)
      && h[12..16] == ToLE(|c.values|, 4);
    assert p[0..16] == h;
    assert p[0..4] == p[0..16][0..4] && p[4..6] == p[0..16][4..6] && p[8..12] == p[0..16][8..12]
      && p[12..16] == p[0..16][12..16];
  }

  /** The reader recovers the claim from any placement of its parts. */
  lemma PlacedReads(p: seq<byte>, c: Claim, nameAt: nat, slots0: nat, data0: nat)
    requires SoundClaim(c) && Placed(p, c, nameAt, slots0, data0)
    ensures ReadClaim(p) == Some(c)
  {
    hide ReadValues, TextAt, FromLE, CStr, Header, Table, Slots, Datas, HoldsAt, Sound, TypedValue;
    HoldsInside(p, nameAt, CStr(c.name));
    CStrNonEmpty(c.name);
    HeaderReads(p, c, nameAt);
    TextReads(p, nameAt, c.name);
    ValuesRead(p, c, nameAt, slots0, data0, |c.values|);
    assert c.values[..|c.values|] == c.values;
  }

  lemma CStrNonEmpty(s: string)
    ensures |CStr(s)| >= 2
  {
  }

  // ---- both layouts are placements ----

  lemma Concat5(a: seq<byte>, b: seq<byte>, c: seq<byte>, d: seq<byte>, e: seq<byte>)
    ensures var p := a + b + c + d + e;
      && HoldsAt(p, 0, a) && HoldsAt(p, |a|, b) && HoldsAt(p, |a| + |b|, c)
      && HoldsAt(p, |a| + |b| + |c|, d) && HoldsAt(p, |a| + |b| + |c| + |d|, e)
  {
    hide HoldsAt;
    var p := a + b + c + d + e;
    Regroup(a, b, c, d, e);
    HoldsWhole(p);
    HoldsParts(p, 0, a, b + (c + (d + e)));
    HoldsParts(p, |a|, b, c + (d + e));
    HoldsParts(p, |a| + |b|, c, d + e);
    HoldsParts(p, |a| + |b| + |c|, d, e);
  }

  lemma Regroup(a: seq<byte>, b: seq<byte>, c: seq<byte>, d: seq<byte>, e: seq<byte>)
    ensures a + b + c + d + e == a + (b + (c + (d + e)))
  {
    assert a + b + c + d + e == (a + b + c) + (d + e);
    assert (a + b + c) + (d + e) == (a + b) + (c + (d + e));
  }

  lemma HoldsWhole(p: seq<byte>)
    ensures HoldsAt(p, 0, p)
  {
  }

  lemma NameFirstReads(c: Claim)
    requires SoundClaim(c) && |NameFirst(c)| < U32
    ensures ReadClaim(NameFirst(c)) == Some(c)
  {
    hide HoldsAt, Header, Table, Slots, Datas, CStr, ReadClaim, SlotsSize, Sound, TypedValue, Uniform;
    var slots0 := Prefix(c) + |CStr(c.name)|;
    var data0 := slots0 + SlotsSize(c.values);
    Concat5(Header(c, Prefix(c)), Table(c.values, slots0), CStr(c.name), Slots(c.values, data0), Datas(c.values));
    PlacedReads(NameFirst(c), c, Prefix(c), slots0, data0);
  }

  lemma NameLastReads(c: Claim)
    requires SoundClaim(c) && |NameLast(c)| < U32
    ensures ReadClaim(NameLast(c)) == Some(c)
  {
    hide HoldsAt, Header, Table, Slots, Datas, CStr, ReadClaim, SlotsSize, Sound, TypedValue, Uniform;
    var data0 := Prefix(c) + SlotsSize(c.values);
    Concat5(Header(c, NameLastAt(c)), Table(c.values, Prefix(c)), Slots(c.values, data0), Datas(c.values), CStr(c.name));
    PlacedReads(NameLast(c), c, NameLastAt(c), Prefix(c), data0);
  }

  /** The two layouts are as long as each other, differ, and are the same claim to a reader. */
  lemma LayoutsAgree(c: Claim)
    requires SoundClaim(c) && c.values != [] && |NameFirst(c)| < U32
    ensures |NameFirst(c)| == |NameLast(c)| && NameFirst(c) != NameLast(c)
    ensures ReadClaim(NameFirst(c)) == ReadClaim(NameLast(c)) == Some(c)
  {
    hide Header, Table, Slots, Datas, CStr, ReadClaim, Sound, TypedValue, Uniform;
    NameFirstReads(c);
    NameLastReads(c);
    NamesApart(c);
  }

  /** The name offset itself tells them apart. */
  lemma NamesApart(c: Claim)
    requires SoundClaim(c) && c.values != [] && |NameFirst(c)| < U32
    ensures NameFirst(c) != NameLast(c)
  {
    hide HoldsAt, Header, Table, Slots, Datas, CStr, Sound, TypedValue, Uniform, FromLE;
    var slots0 := Prefix(c) + |CStr(c.name)|;
    Concat5(Header(c, Prefix(c)), Table(c.values, slots0), CStr(c.name),
            Slots(c.values, slots0 + SlotsSize(c.values)), Datas(c.values));
    Concat5(Header(c, NameLastAt(c)), Table(c.values, Prefix(c)),
            Slots(c.values, Prefix(c) + SlotsSize(c.values)), Datas(c.values), CStr(c.name));
    HeaderReads(NameFirst(c), c, Prefix(c));
    HeaderReads(NameLast(c), c, NameLastAt(c));
  }

  // ---- arrays of claims ----

  /** `encode_claims_array`, over the entries of its claims. */
  function EncodeArray(cs: seq<Claim>): seq<byte>
    requires forall i :: 0 <= i < |cs| ==> Typed(cs[i])
  {
    if cs == [] then [] else ToLE(|NameFirst(cs[0])|, 4) + NameFirst(cs[0]) + EncodeArray(cs[1..])
  }

  function ReadArray(s: seq<byte>): Option<seq<Claim>>
    decreases |s|
  {
    if s == [] then Some([])
    else if |s| < 4 || |s| < 4 + FromLE(s[..4]) then None
    else
      var n := FromLE(s[..4]);
      match ReadClaim(s[4..4 + n])
      case None => None
      case Some(c) =>
        match ReadArray(s[4 + n..])
        case None => None
        case Some(more) => Some([c] + more)
  }

  lemma {:induction false} ArrayReads(cs: seq<Claim>)
    requires forall i :: 0 <= i < |cs| ==> Typed(cs[i])
    requires forall i :: 0 <= i < |cs| ==> SoundClaim(cs[i]) && |NameFirst(cs[i])| < U32
    ensures ReadArray(EncodeArray(cs)) == Some(cs)
  {
    hide NameFirst, ReadClaim, SoundClaim, Typed, ToLE, FromLE;
    if cs != [] {
      var s, p, rest := EncodeArray(cs), NameFirst(cs[0]), EncodeArray(cs[1..]);
      PowValues();
      LeRoundTrip(|p|, 4);
      assert s[..4] == ToLE(|p|, 4) && s[4..4 + |p|] == p && s[4 + |p|..] == rest;
      NameFirstReads(cs[0]);
      ArrayReads(cs[1..]);
      assert cs == [cs[0]] + cs[1..];
    }
  }
}
