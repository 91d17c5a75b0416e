/**
 * What one inherited ACE is, byte by byte and bit by bit (section 2.5.3.4.4 of MS-DTYP): which copies a
 * child gets, whom a resolved copy names and what it grants. Every code here is written out.
 */
module InheritRules {
  import opened Bytes
  import opened SidWire
  import opened SecurityDescriptor
  import opened Inherit

  /** The body of an ACE with a SID: the mask, object flags and GUIDs if any, the SID, application data. */
  datatype Body = Body(mask: seq<byte>, middle: seq<byte>, sid: Sid, tail: seq<byte>)

  function BytesOf(b: Body): seq<byte> {
    b.mask + b.middle + EncodeSid(b.sid) + b.tail
  }

  /** Bodies of the types that carry a SID: right after the mask, or after flags that say which GUIDs there are. */
  predicate Carries(t: byte, b: Body) {
    && |b.mask| == 4 && TypedSid(b.sid) && CanonicalSid(b.sid)
    && if t in {0x00, 0x01, 0x02, 0x03, 0x09, 0x0a, 0x0d, 0x0e, 0x11, 0x12, 0x13, 0x14} then b.middle == []
       else if t in {0x05, 0x06, 0x07, 0x08, 0x0b, 0x0c, 0x0f, 0x10} then
         |b.middle| >= 4 && |b.middle| == 4 + 16 * (b.middle[0] % 2) + 16 * (b.middle[0] / 2 % 2)
       else false
  }

  predicate Lays(a: Ace, b: Body) {
    Carries(a.aceType, b) && a.body == BytesOf(b)
  }

  function Word(mask: seq<byte>): bv32
    requires |mask| == 4
  {
    LeInverse(mask);
    PowValues();
    FromLE(mask) as bv32
  }

  predicate On(w: bv32, bits: bv32) {
    w & bits != 0
  }

  const S_1_3_0 := Sid(1, 3, [0])
  const S_1_3_1 := Sid(1, 3, [1])

  /** Whom the resolved ACE names. */
  function Named(sid: Sid, child: Child): seq<byte> {
    if sid == S_1_3_0 && child.owner.Some? then child.owner.value
    else if sid == S_1_3_1 && child.group.Some? then child.group.value
    else EncodeSid(sid)
  }

  /** The rights of the resolved ACE: the specific ones, and for each generic one what it maps to. */
  ghost predicate Mapped(w: bv32, w': bv32, mapping: Option<GenericMapping>) {
    if mapping.None? then w' == w
    else
      var m := mapping.value;
      forall bits: bv32 :: On(w', bits) <==>
        || On(w & 0x0fff_ffff, bits)
        || (On(w, 0x8000_0000) && On(m.read, bits))
        || (On(w, 0x4000_0000) && On(m.write, bits))
        || (On(w, 0x2000_0000) && On(m.execute, bits))
        || (On(w, 0x1000_0000) && On(m.all, bits))
  }

  /** `out` is `b` resolved for `child`, or `b` itself where that would not fit an ACE. */
  ghost predicate Resolves(b: Body, child: Child, out: seq<byte>)
    requires |b.mask| == 4
  {
    var rest := b.middle + Named(b.sid, child) + b.tail;
    if 4 + |rest| > 65528 then out == BytesOf(b)
    else |out| >= 4 && out[4..] == rest && Mapped(Word(b.mask), Word(out[..4]), child.mapping)
  }

  predicate Needs(b: Body, child: Child)
    requires |b.mask| == 4
  {
    b.sid == S_1_3_0 || b.sid == S_1_3_1 || (child.mapping.Some? && On(Word(b.mask), 0xf000_0000))
  }

  /** The ACE names a creator, or has generic rights the child can map. */
  ghost predicate Changes(a: Ace, child: Child) {
    exists b :: Lays(a, b) && Needs(b, child)
  }

  ghost predicate ResolvedFrom(a: Ace, child: Child, out: seq<byte>) {
    forall b :: Lays(a, b) ==> Resolves(b, child, out)
  }

  // ---- where the SID is ----

  lemma CreatorBytes(sid: Sid)
    requires TypedSid(sid) && CanonicalSid(sid)
    ensures EncodeSid(sid) == CREATOR_OWNER <==> sid == S_1_3_0
    ensures EncodeSid(sid) == CREATOR_GROUP <==> sid == S_1_3_1
  {
    EncodedCreators();
    hide EncodeSid, ParseSid;
    SidRoundTripExact(sid, []);
    assert EncodeSid(sid) + [] == EncodeSid(sid);
    EncodedCreator(S_1_3_0);
    EncodedCreator(S_1_3_1);
  }

  lemma EncodedCreator(sid: Sid)
    requires sid == S_1_3_0 || sid == S_1_3_1
    ensures ParseSid(EncodeSid(sid)) == SidAt(sid, |EncodeSid(sid)|)
  {
    PowValues();
    SidRoundTripExact(sid, []);
    assert EncodeSid(sid) + [] == EncodeSid(sid);
  }

  lemma EncodedCreators()
    ensures EncodeSid(S_1_3_0) == CREATOR_OWNER && EncodeSid(S_1_3_1) == CREATOR_GROUP
  {
    ThreeBE();
    ShortLE(0);
    ShortLE(1);
    assert SubBytes([0]) == ToLE(0, 4) + SubBytes([]);
    assert SubBytes([1]) == ToLE(1, 4) + SubBytes([]);
  }

  lemma ShortLE(n: nat)
    requires n < 256
    ensures ToLE(n, 4) == [n, 0, 0, 0]
  {
    assert ToLE(0, 1) == [0] + ToLE(0, 0);
    assert ToLE(0, 2) == [0] + ToLE(0, 1);
    assert ToLE(0, 3) == [0] + ToLE(0, 2);
  }

  lemma ThreeBE()
    ensures ToBE(3, 6) == [0, 0, 0, 0, 0, 3]
  {
    assert ToBE(0, 1) == ToBE(0, 0) + [0];
    assert ToBE(0, 2) == ToBE(0, 1) + [0];
    assert ToBE(0, 3) == ToBE(0, 2) + [0];
    assert ToBE(0, 4) == ToBE(0, 3) + [0];
    assert ToBE(0, 5) == ToBE(0, 4) + [0];
  }

  lemma LowBits(b: byte, t: nat)
    ensures (b + 256 * t) % 2 == b % 2 && (b + 256 * t) / 2 % 2 == b / 2 % 2
  {
    var h := b / 2;
    ModuloUnique(b + 256 * t, 2, 128 * t + h, b % 2);
    ModuloUnique(128 * t + h, 2, 64 * t + h / 2, h % 2);
  }

  /** The low two bits of the object flags are those of their first byte. */
  lemma LowFlags(body: seq<byte>)
    requires |body| >= 8
    ensures FromLE(body[4..8]) % 2 == body[4] % 2 && FromLE(body[4..8]) / 2 % 2 == body[4] / 2 % 2
  {
    var s := body[4..8];
    var t := FromLE(s[1..]);
    assert s[0] == body[4] && FromLE(s) == s[0] + 256 * t;
    hide FromLE;
    LowBits(s[0], t);
  }

  lemma SpanOf(a: Ace, b: Body)
    requires Lays(a, b)
    ensures SidSpan(a.aceType, a.body) == Span(4 + |b.middle|, |EncodeSid(b.sid)|)
    ensures a.body[..4] == b.mask && a.body[4..4 + |b.middle|] == b.middle
    ensures var at, n := 4 + |b.middle|, |EncodeSid(b.sid)|;
      a.body[at..at + n] == EncodeSid(b.sid) && a.body[at + n..] == b.tail
  {
    hide EncodeSid, ParseSid, TypedSid, CanonicalSid, FromLE;
    var at, n := 4 + |b.middle|, |EncodeSid(b.sid)|;
    assert a.body[at..] == EncodeSid(b.sid) + b.tail;
    SidRoundTripExact(b.sid, b.tail);
    assert SpanAt(a.body, at) == Span(at, n);
    if b.middle != [] {
      LowFlags(a.body);
      assert a.body[4] == b.middle[0];
    }
  }

  /** The parts of a body whose SID the code finds. */
  lemma PartsOf(a: Ace) returns (b: Body)
    requires SidSpan(a.aceType, a.body).Span?
    ensures Lays(a, b)
  {
    hide EncodeSid, ParseSid, TypedSid, CanonicalSid, FromLE;
    var p := SidSpan(a.aceType, a.body);
    var rest := a.body[p.at..];
    ParsedSidEncodes(rest);
    var sid := ParseSid(rest).sid;
    assert rest[..p.len] == EncodeSid(sid);
    b := Body(a.body[..4], a.body[4..p.at], sid, a.body[p.at + p.len..]);
    assert a.body == BytesOf(b);
    if |a.body| >= 8 {
      LowFlags(a.body);
    }
  }

  lemma SameWord(body: seq<byte>, mask: seq<byte>)
    requires |body| >= 4 && mask == body[..4]
    ensures Mask(body) == Word(mask)
  {
  }

  lemma ResolvableFor(a: Ace, b: Body, child: Child)
    requires Lays(a, b)
    ensures Resolvable(a.aceType, a.body, child) <==> Needs(b, child)
  {
    hide SidSpan, EncodeSid, BytesOf, Mask, Word, TypedSid, CanonicalSid;
    SpanOf(a, b);
    CreatorBytes(b.sid);
    SameWord(a.body, b.mask);
  }

  /** The code resolves exactly the ACEs that need it. */
  lemma ResolvableExact(a: Ace, child: Child)
    ensures Resolvable(a.aceType, a.body, child) <==> Changes(a, child)
  {
    hide BytesOf, Needs, TypedSid, CanonicalSid;
    if Resolvable(a.aceType, a.body, child) {
      var b := PartsOf(a);
      ResolvableFor(a, b, child);
    } else if Changes(a, child) {
      var b :| Lays(a, b) && Needs(b, child);
      ResolvableFor(a, b, child);
    }
  }

  // ---- what a resolved copy is ----

  lemma Distributes(a: bv32, b: bv32, c: bv32)
    ensures (a | b) & c == (a & c) | (b & c)
  {
  }

  lemma UnionZero(a: bv32, b: bv32)
    ensures a | b == 0 <==> a == 0 && b == 0
  {
  }

  lemma OnUnion(a: bv32, b: bv32, bits: bv32)
    ensures On(a | b, bits) <==> On(a, bits) || On(b, bits)
  {
    Distributes(a, b, bits);
    UnionZero(a & bits, b & bits);
  }

  /** A generic right brings in its own mapping and nothing else. */
  lemma OnMapBit(w: bv32, mask: bv32, right: bv32, to: bv32, bits: bv32)
    ensures On(MapBit(w, mask, right, to), bits) <==> On(w, bits) || (On(mask, right) && On(to, bits))
  {
    assert On(mask, right) <==> mask & right != 0;
    hide On;
    OnUnion(w, to, bits);
  }

  lemma Specific(w: bv32)
    ensures w & !GENERIC_BITS == w & 0x0fff_ffff
  {
  }

  lemma MapsRights(w: bv32, m: GenericMapping)
    ensures Mapped(w, MapMask(w, m), Some(m))
  {
    hide On, MapBit;
    Specific(w);
    var w0 := w & 0x0fff_ffff;
    var w1 := MapBit(w0, w, 0x8000_0000, m.read);
    var w2 := MapBit(w1, w, 0x4000_0000, m.write);
    var w3 := MapBit(w2, w, 0x2000_0000, m.execute);
    var w4 := MapBit(w3, w, 0x1000_0000, m.all);
    assert MapMask(w, m) == w4;
    forall bits: bv32
      ensures On(w4, bits) <==>
        || On(w0, bits)
        || (On(w, 0x8000_0000) && On(m.read, bits))
        || (On(w, 0x4000_0000) && On(m.write, bits))
        || (On(w, 0x2000_0000) && On(m.execute, bits))
        || (On(w, 0x1000_0000) && On(m.all, bits))
    {
      OnMapBit(w0, w, 0x8000_0000, m.read, bits);
      OnMapBit(w1, w, 0x4000_0000, m.write, bits);
      OnMapBit(w2, w, 0x2000_0000, m.execute, bits);
      OnMapBit(w3, w, 0x1000_0000, m.all, bits);
    }
  }

  lemma WordOfBytes(w: bv32)
    ensures Word(ToLE(w as int, 4)) == w
  {
    PowValues();
    LeRoundTrip(w as int, 4);
  }

  /** The body the code puts together from the parts. */
  lemma Assembled(m: seq<byte>, middle: seq<byte>, sid: seq<byte>, tail: seq<byte>)
    requires |m| == 4
    ensures var full := m + middle + sid + tail;
      full[..4] == m && full[4..] == middle + sid + tail && |full| == 4 + |middle + sid + tail|
  {
  }

  lemma ResolveIs(a: Ace, b: Body, child: Child, w: bv32)
    requires Lays(a, b)
    requires w == if child.mapping.Some? then MapMask(Word(b.mask), child.mapping.value) else Word(b.mask)
    ensures var full := ToLE(w as int, 4) + b.middle + Named(b.sid, child) + b.tail;
      Resolve(a.aceType, a.body, child) == if |full| > 65528 then a.body else full
  {
    hide SidSpan, EncodeSid, BytesOf, Mask, Word, TypedSid, CanonicalSid, MapMask, ToLE;
    SpanOf(a, b);
    CreatorBytes(b.sid);
    SameWord(a.body, b.mask);
  }

  lemma ResolvesTo(a: Ace, b: Body, child: Child)
    requires Lays(a, b)
    ensures Resolves(b, child, Resolve(a.aceType, a.body, child))
  {
    hide Resolve, Carries, BytesOf, Word, MapMask, Mapped, ToLE, Named;
    assert |b.mask| == 4 by { MaskLength(a.aceType, b); }
    var w := Word(b.mask);
    var w' := if child.mapping.Some? then MapMask(w, child.mapping.value) else w;
    ResolveIs(a, b, child, w');
    Rights(w, child.mapping);
    WordOfBytes(w');
    Assembled(ToLE(w' as int, 4), b.middle, Named(b.sid, child), b.tail);
  }

  lemma MaskLength(t: byte, b: Body)
    requires Carries(t, b)
    ensures |b.mask| == 4
  {
  }

  lemma Rights(w: bv32, mapping: Option<GenericMapping>)
    ensures Mapped(w, if mapping.Some? then MapMask(w, mapping.value) else w, mapping)
  {
    hide MapMask;
    if mapping.Some? {
      MapsRights(w, mapping.value);
    }
  }

  lemma ResolvesFrom(a: Ace, child: Child)
    ensures ResolvedFrom(a, child, Resolve(a.aceType, a.body, child))
  {
    hide Resolve, Resolves, BytesOf, TypedSid, CanonicalSid;
    forall b | Lays(a, b) ensures Resolves(b, child, Resolve(a.aceType, a.body, child)) {
      ResolvesTo(a, b, child);
    }
  }

  // ---- which copies a child gets ----

  /**
   * A child that is no container gets one copy of each ACE for objects and of no other: with no
   * inheritance flags, marked inherited, resolved where the ACE needs it and as written otherwise.
   */
  lemma ObjectInherits(a: Ace, child: Child)
    requires !child.container
    ensures var out := InheritAce(a, child);
      if a.flags & 0x01 == 0 then out == []
      else
        && |out| == 1 && out[0].aceType == a.aceType && out[0].flags == (a.flags & 0xf0) | 0x10
        && if Changes(a, child) then ResolvedFrom(a, child, out[0].body) else out[0].body == a.body
  {
    ObjectFlags(a.flags);
    hide Resolve, Resolvable, Changes, ResolvedFrom, Reaches, CopyFlags, Has;
    ResolvableExact(a, child);
    ResolvesFrom(a, child);
  }

  lemma ObjectFlags(f: bv8)
    ensures Reaches(f, false) <==> f & 0x01 != 0
    ensures var g := CopyFlags(f, false);
      && g == (f & 0xf0) | 0x10 && g & !ALL_INHERIT_FLAGS == g
      && !Has(g, INHERIT_ONLY) && !Has(g, OBJECT_INHERIT | CONTAINER_INHERIT)
  {
  }

  /** The flags of the copy a container keeps and hands on. */
  function Kept(f: bv8): bv8 {
    (f | 0x10) & 0xf7
  }

  /**
   * A container gets every ACE for containers. One that stops here arrives without inheritance
   * flags; one that goes on keeps them, and where it needs resolving it is two: resolved for the
   * container itself, and inherit-only as written. An ACE for objects alone passes through,
   * inherit-only as written, unless it stops here.
   */
  lemma ContainerInherits(a: Ace, child: Child)
    requires child.container
    ensures var out, f := InheritAce(a, child), a.flags;
      if f & 0x02 == 0 then
        out == if f & 0x01 != 0 && f & 0x04 == 0 then [Ace(a.aceType, f | 0x18, a.body)] else []
      else if f & 0x04 != 0 then
        && |out| == 1 && out[0].aceType == a.aceType && out[0].flags == (f & 0xf0) | 0x10
        && if Changes(a, child) then ResolvedFrom(a, child, out[0].body) else out[0].body == a.body
      else if !Changes(a, child) then out == [Ace(a.aceType, Kept(f), a.body)]
      else
        && |out| == 2 && out[0].aceType == a.aceType && out[0].flags == (f & 0xf0) | 0x10
        && ResolvedFrom(a, child, out[0].body)
        && out[1] == Ace(a.aceType, Kept(f) | 0x08, a.body)
  {
    ContainerFlags(a.flags);
    hide Resolve, Resolvable, Changes, ResolvedFrom, Reaches, CopyFlags, Has;
    ResolvableExact(a, child);
    ResolvesFrom(a, child);
  }

  lemma ContainerFlags(f: bv8)
    ensures Reaches(f, true) <==> f & 0x02 != 0 || (f & 0x01 != 0 && f & 0x04 == 0)
    ensures var g := CopyFlags(f, true);
      && (f & 0x02 != 0 ==> g & !ALL_INHERIT_FLAGS == (f & 0xf0) | 0x10 && !Has(g, INHERIT_ONLY))
      && (f & 0x04 != 0 ==> g == (f & 0xf0) | 0x10 && !Has(g, OBJECT_INHERIT | CONTAINER_INHERIT))
      && (f & 0x02 != 0 && f & 0x04 == 0 ==>
          g == Kept(f) && g | INHERIT_ONLY == Kept(f) | 0x08 && Has(g, OBJECT_INHERIT | CONTAINER_INHERIT))
      && (f & 0x02 == 0 && f & 0x01 != 0 && f & 0x04 == 0 ==>
          g == f | 0x18 && g | INHERIT_ONLY == g && Has(g, INHERIT_ONLY) && Has(g, OBJECT_INHERIT | CONTAINER_INHERIT))
  {
  }

  // ---- whom the copy names, read back ----

  /** The SID a resolved ACE stands for when the child's owner and group are `owner` and `group`. */
  function NamedSid(sid: Sid, owner: Sid, group: Sid): Sid {
    if sid == S_1_3_0 then owner else if sid == S_1_3_1 then group else sid
  }

  /**
   * For a child whose owner and group are SIDs, the resolved body is again a body of its type. It
   * names the child's owner for S-1-3-0, the group for S-1-3-1 and the same SID otherwise; all but
   * the mask and the SID is as it was.
   */
  lemma ResolvedNames(a: Ace, b: Body, child: Child, owner: Sid, group: Sid, out: seq<byte>)
    requires TypedSid(owner) && CanonicalSid(owner) && child.owner == Some(EncodeSid(owner))
    requires TypedSid(group) && CanonicalSid(group) && child.group == Some(EncodeSid(group))
    requires Lays(a, b) && ResolvedFrom(a, child, out)
    requires |b.middle| + |EncodeSid(NamedSid(b.sid, owner, group))| + |b.tail| <= 65524
    ensures |out| >= 4
    ensures var b' := Body(out[..4], b.middle, NamedSid(b.sid, owner, group), b.tail);
      && Lays(Ace(a.aceType, a.flags, out), b')
      && Mapped(Word(b.mask), Word(b'.mask), child.mapping)
      && ParseSid(out[4 + |b.middle|..]) == SidAt(NamedSid(b.sid, owner, group), |EncodeSid(b'.sid)|)
  {
    hide EncodeSid, TypedSid, CanonicalSid, Word, Mapped, ParseSid;
    assert Resolves(b, child, out);
    var sid := NamedSid(b.sid, owner, group);
    assert Named(b.sid, child) == EncodeSid(sid);
    var b' := Body(out[..4], b.middle, sid, b.tail);
    assert out == out[..4] + out[4..];
    assert BytesOf(b') == out[..4] + (b.middle + EncodeSid(sid) + b.tail);
    assert out[4 + |b.middle|..] == EncodeSid(sid) + b.tail;
    SidRoundTripExact(sid, b.tail);
  }
}
