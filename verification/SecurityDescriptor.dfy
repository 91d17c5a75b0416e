/** ACEs, ACLs and self-relative security descriptors: builders and parsers (section 2.4 of MS-DTYP). */
module SecurityDescriptor {
  import opened Bytes
  import opened SidWire

  /** An ACE without its size field, which `AceLen` gives back. */
  datatype Ace = Ace(aceType: byte, flags: bv8, body: seq<byte>)

  function RoundUp4(n: nat): (m: nat)
    ensures n <= m < n + 4 && m % 4 == 0 && (n % 4 == 0 ==> m == n)
  {
    (n + 3) / 4 * 4
  }

  /** The wire size of an ACE, padded to a 4-byte boundary. */
  function AceLen(a: Ace): (n: nat)
    ensures n >= 4 && n % 4 == 0
  {
    RoundUp4(4 + |a.body|)
  }

  /** The ACE as it is read back: its body zero-padded to a 4-byte boundary. */
  function Padded(a: Ace): (p: Ace)
    ensures 4 + |p.body| == AceLen(a)
    ensures Aligned(a) ==> p == a
  {
    a.(body := a.body + Zeros(AceLen(a) - 4 - |a.body|))
  }

  /** Padding changes the body alone: fewer than four zeros after it, up to a multiple of four. */
  lemma PaddedExact(a: Ace)
    ensures var p := Padded(a);
      && p.aceType == a.aceType && p.flags == a.flags && |p.body| % 4 == 0 && |a.body| <= |p.body| < |a.body| + 4
      && forall i :: 0 <= i < |p.body| ==> p.body[i] == if i < |a.body| then a.body[i] else 0
  {
  }

  predicate Aligned(a: Ace) {
    |a.body| % 4 == 0
  }

  /** `AceBuilder::build`: the size field is cut to 16 bits. */
  function BuildAce(a: Ace): (s: seq<byte>)
    ensures |s| == AceLen(a)
  {
    [a.aceType, a.flags as int] + ToLE(AceLen(a), 2) + Padded(a).body
  }

  function BuildAces(aces: seq<Ace>): seq<byte> {
    if aces == [] then [] else BuildAce(aces[0]) + BuildAces(aces[1..])
  }

  function PadAll(aces: seq<Ace>): (r: seq<Ace>)
    ensures |r| == |aces|
    ensures forall i :: 0 <= i < |aces| ==> r[i] == Padded(aces[i])
  {
    if aces == [] then [] else [Padded(aces[0])] + PadAll(aces[1..])
  }

  /** The object-type and callback ACE types, which call for the directory-services revision. */
  predicate NeedsDsRevision(a: Ace) {
    0x05 <= a.aceType <= 0x10
  }

  function AclRevision(aces: seq<Ace>): byte {
    if exists i :: 0 <= i < |aces| && NeedsDsRevision(aces[i]) then 4 else 2
  }

  const U16_MAX := 65535

  /** The two limits `AclBuilder::build` enforces. */
  predicate AclFits(aces: seq<Ace>) {
    |aces| <= U16_MAX && 8 + |BuildAces(aces)| <= U16_MAX
  }

  /** `AclBuilder::build`, or nothing when a limit is exceeded. */
  function BuildAcl(aces: seq<Ace>): (r: Option<seq<byte>>)
    ensures r.Some? <==> AclFits(aces)
    ensures r.Some? <==> |aces| <= 65535 && 8 + |BuildAces(aces)| <= 65535
    ensures r.Some? ==> |r.value| == 8 + |BuildAces(aces)|
  {
    if !AclFits(aces) then None
    else
      var body := BuildAces(aces);
      Some([AclRevision(aces), 0] + ToLE(8 + |body|, 2) + ToLE(|aces|, 2) + [0, 0] + body)
  }

  // ---- parsing ----

  /** What the ACE iterator yields: the ACEs up to the first malformed one, and whether there was one. */
  datatype AceList = AceList(aces: seq<Ace>, ok: bool)

  /** `AceIter`: at most `n` ACEs from the front of `s`. */
  function IterAces(s: seq<byte>, n: nat): (r: AceList)
    ensures r.ok ==> |r.aces| == n
    decreases n
  {
    if n == 0 then AceList([], true)
    else if |s| < 4 then AceList([], false)
    else
      var size := FromLE(s[2..4]);
      if size < 4 || |s| < size then AceList([], false)
      else
        var rest := IterAces(s[size..], n - 1);
        AceList([Ace(s[0], (s[1] as int) as bv8, s[4..size])] + rest.aces, rest.ok)
  }

  /** A parsed ACL header over exactly the bytes its size field claims. */
  datatype Acl = Acl(revision: byte, size: nat, aceCount: nat, bytes: seq<byte>)

  function ParseAcl(bytes: seq<byte>): (r: Option<Acl>)
    ensures r.Some? ==> r.value.size == |r.value.bytes| <= |bytes|
    ensures r.Some? ==> |r.value.bytes| <= U16_MAX && r.value.aceCount <= U16_MAX
  {
    if |bytes| < 8 then None else
    var size := FromLE(bytes[2..4]);
    PowValues();
    LeInverse(bytes[2..4]);
    LeInverse(bytes[4..6]);
    if size > |bytes| then None else Some(Acl(bytes[0], size, FromLE(bytes[4..6]), bytes[..size]))
  }

  /** `aces_iter` slices past the header, so the size field must cover it. */
  function AcesOf(acl: Acl): AceList
    requires |acl.bytes| >= 8
  {
    IterAces(acl.bytes[8..], acl.aceCount)
  }

  // ---- the round trip of an ACL ----

  lemma AceHeader(a: Ace, rest: seq<byte>)
    requires AceLen(a) <= U16_MAX
    ensures var s := BuildAce(a) + rest;
      && s[0] == a.aceType && (s[1] as int) as bv8 == a.flags && FromLE(s[2..4]) == AceLen(a)
      && s[4..AceLen(a)] == Padded(a).body && s[AceLen(a)..] == rest
  {
    var s := BuildAce(a) + rest;
    assert s[2..4] == ToLE(AceLen(a), 2);
    PowValues();
    LeRoundTrip(AceLen(a), 2);
    assert s[4..AceLen(a)] == Padded(a).body;
  }

  lemma {:induction false} AcesRoundTrip(aces: seq<Ace>, rest: seq<byte>)
    requires |BuildAces(aces)| <= U16_MAX
    ensures IterAces(BuildAces(aces) + rest, |aces|) == AceList(PadAll(aces), true)
    decreases |aces|
  {
    if aces != [] {
      var more := BuildAces(aces[1..]) + rest;
      assert BuildAces(aces) + rest == BuildAce(aces[0]) + more;
      AceHeader(aces[0], more);
      AcesRoundTrip(aces[1..], rest);
    }
  }

  /** The revision is 4 exactly when an object-type or callback ACE (0x05 to 0x10) is in the list, and 2 otherwise. */
  predicate RevisionFits(revision: byte, aces: seq<Ace>) {
    revision == if exists a :: a in aces && 0x05 <= a.aceType <= 0x10 then 4 else 2
  }

  lemma RevisionExact(aces: seq<Ace>)
    ensures RevisionFits(AclRevision(aces), aces)
  {
    if exists a :: a in aces && 0x05 <= a.aceType <= 0x10 {
      var a :| a in aces && 0x05 <= a.aceType <= 0x10;
      var i :| 0 <= i < |aces| && aces[i] == a;
      assert NeedsDsRevision(aces[i]);
    } else {
      assert forall i :: 0 <= i < |aces| ==> aces[i] in aces && !NeedsDsRevision(aces[i]);
    }
  }

  lemma AclSlices(revision: byte, size: seq<byte>, count: seq<byte>, body: seq<byte>, rest: seq<byte>)
    requires |size| == 2 && |count| == 2
    ensures var b := [revision, 0] + size + count + [0, 0] + body;
      var s := b + rest;
      && s[0] == revision && s[2..4] == size && s[4..6] == count && s[..|b|] == b && b[8..] == body
  {
  }

  /** Whatever follows it in the buffer, a built ACL parses back to its ACEs, bodies padded. */
  lemma AclRoundTrip(aces: seq<Ace>, rest: seq<byte>)
    requires AclFits(aces)
    ensures var r := ParseAcl(BuildAcl(aces).value + rest);
      && r.Some? && r.value.bytes == BuildAcl(aces).value && RevisionFits(r.value.revision, aces)
      && |r.value.bytes| >= 8 && AcesOf(r.value) == AceList(PadAll(aces), true)
  {
    hide RevisionFits, AclRevision, FromLE, ToLE, Pow256, IterAces, PadAll, BuildAces;
    RevisionExact(aces);
    var body := BuildAces(aces);
    PowValues();
    LeRoundTrip(8 + |body|, 2);
    LeRoundTrip(|aces|, 2);
    AclSlices(AclRevision(aces), ToLE(8 + |body|, 2), ToLE(|aces|, 2), body, rest);
    AcesRoundTrip(aces, []);
    assert body + [] == body;
  }

  /** Padding is idempotent on the wire: a padded ACE builds the same bytes. */
  lemma BuildPadded(a: Ace)
    ensures AceLen(Padded(a)) == AceLen(a) && Padded(Padded(a)) == Padded(a) && BuildAce(Padded(a)) == BuildAce(a)
  {
  }

  lemma {:induction false} BuildAcesPadded(aces: seq<Ace>)
    ensures BuildAces(PadAll(aces)) == BuildAces(aces)
    decreases |aces|
  {
    if aces != [] {
      BuildPadded(aces[0]);
      BuildAcesPadded(aces[1..]);
      assert PadAll(aces)[1..] == PadAll(aces[1..]);
    }
  }

  lemma BuildAclPadded(aces: seq<Ace>)
    ensures BuildAcl(PadAll(aces)) == BuildAcl(aces)
  {
    BuildAcesPadded(aces);
    var p := PadAll(aces);
    assert forall i :: 0 <= i < |aces| ==> (NeedsDsRevision(p[i]) <==> NeedsDsRevision(aces[i]));
  }

  // ---- security descriptors ----

  const SE_DACL_PRESENT: bv16 := 0x0004
  const SE_SACL_PRESENT: bv16 := 0x0010
  const SE_DACL_AUTO_INHERITED: bv16 := 0x0400
  const SE_SACL_AUTO_INHERITED: bv16 := 0x0800
  const SE_DACL_PROTECTED: bv16 := 0x1000
  const SE_SACL_PROTECTED: bv16 := 0x2000
  const SE_SELF_RELATIVE: bv16 := 0x8000

  const SD_HEADER := 20

  /** What an `SdBuilder` holds. */
  datatype SdParts = SdParts(
    owner: Option<Sid>, group: Option<Sid>, sacl: Option<seq<Ace>>, dacl: Option<seq<Ace>>, control: bv16)

  function ControlOf(p: SdParts): bv16 {
    ControlWord(p.control, p.sacl.Some?, p.dacl.Some?)
  }

  function ControlWord(extra: bv16, sacl: bool, dacl: bool): bv16 {
    SE_SELF_RELATIVE | extra | (if sacl then SE_SACL_PRESENT else 0) | (if dacl then SE_DACL_PRESENT else 0)
  }

  predicate Buildable(p: SdParts) {
    (p.sacl.Some? ==> AclFits(p.sacl.value)) && (p.dacl.Some? ==> AclFits(p.dacl.value))
  }

  /** A header over four referenced parts laid out in the order owner, group, SACL, DACL. */
  function Assemble(revision: byte, sbz1: byte, control: bv16,
                    owner: Option<seq<byte>>, group: Option<seq<byte>>, sacl: Option<seq<byte>>, dacl: Option<seq<byte>>): (s: seq<byte>)
    ensures |s| == SD_HEADER + |Part(owner)| + |Part(group)| + |Part(sacl)| + |Part(dacl)|
  {
    var o := SD_HEADER;
    var g := o + |Part(owner)|;
    var sa := g + |Part(group)|;
    var da := sa + |Part(sacl)|;
    SdHeader(revision, sbz1, control, Off(owner, o), Off(group, g), Off(sacl, sa), Off(dacl, da))
    + EndToEnd(owner, group, sacl, dacl)
  }

  function SdHeader(revision: byte, sbz1: byte, control: bv16, owner: nat, group: nat, sacl: nat, dacl: nat): (s: seq<byte>)
    ensures |s| == SD_HEADER
  {
    [revision, sbz1] + ToLE(control as int, 2) + ToLE(owner, 4) + ToLE(group, 4) + ToLE(sacl, 4) + ToLE(dacl, 4)
  }

  /** The parts end to end. */
  function EndToEnd(owner: Option<seq<byte>>, group: Option<seq<byte>>, sacl: Option<seq<byte>>, dacl: Option<seq<byte>>): seq<byte> {
    Part(owner) + (Part(group) + (Part(sacl) + Part(dacl)))
  }

  /** An absent part has offset zero. */
  function Off(p: Option<seq<byte>>, at: nat): nat {
    if p.Some? then at else 0
  }

  function Part(p: Option<seq<byte>>): seq<byte> {
    if p.None? then [] else p.value
  }

  function SidPart(s: Option<Sid>): Option<seq<byte>> {
    if s.None? then None else Some(EncodeSid(s.value))
  }

  function AclPart(a: Option<seq<Ace>>): Option<seq<byte>>
    requires a.Some? ==> AclFits(a.value)
  {
    if a.None? then None else BuildAcl(a.value)
  }

  /** `SdBuilder::build`. */
  function BuildSd(p: SdParts): (r: Option<seq<byte>>)
    ensures r.Some? <==> Buildable(p)
  {
    if !Buildable(p) then None
    else Some(Assemble(1, 0, ControlOf(p), SidPart(p.owner), SidPart(p.group), AclPart(p.sacl), AclPart(p.dacl)))
  }

  /** The parsed header, over the whole buffer. */
  datatype Sd = Sd(
    revision: byte, sbz1: byte, control: bv16,
    ownerOff: nat, groupOff: nat, saclOff: nat, daclOff: nat, bytes: seq<byte>)

  function ParseSd(bytes: seq<byte>): Option<Sd> {
    if |bytes| < SD_HEADER then None
    else
      LeInverse(bytes[2..4]);
      PowValues();
      Some(Sd(bytes[0], bytes[1], FromLE(bytes[2..4]) as bv16,
              FromLE(bytes[4..8]), FromLE(bytes[8..12]), FromLE(bytes[12..16]), FromLE(bytes[16..20]), bytes))
  }

  /** `owner` and `group`: absent, out of bounds and malformed all read as absent. */
  function SidAtOffset(sd: Sd, off: nat): Option<Sid> {
    if off == 0 || off >= |sd.bytes| then None
    else match ParseSid(sd.bytes[off..]) case NoSid => None case SidAt(s, _) => Some(s)
  }

  function Owner(sd: Sd): Option<Sid> { SidAtOffset(sd, sd.ownerOff) }

  function Group(sd: Sd): Option<Sid> { SidAtOffset(sd, sd.groupOff) }

  datatype AclRef = Absent | Malformed | Present(acl: Acl)

  function AclAtOffset(sd: Sd, present: bool, off: nat): AclRef {
    if !present || off == 0 then Absent
    else if off >= |sd.bytes| then Malformed
    else match ParseAcl(sd.bytes[off..]) case None => Malformed case Some(acl) => Present(acl)
  }

  function Sacl(sd: Sd): AclRef { AclAtOffset(sd, sd.control & SE_SACL_PRESENT != 0, sd.saclOff) }

  function Dacl(sd: Sd): AclRef { AclAtOffset(sd, sd.control & SE_DACL_PRESENT != 0, sd.daclOff) }

  // ---- the round trip of a descriptor ----

  /** The referenced parts laid end to end after the header. */
  datatype Layout = Layout(owner: Option<seq<byte>>, group: Option<seq<byte>>, sacl: Option<seq<byte>>, dacl: Option<seq<byte>>)

  function OwnerOff(l: Layout): nat { SD_HEADER }
  function GroupOff(l: Layout): nat { OwnerOff(l) + |Part(l.owner)| }
  function SaclOff(l: Layout): nat { GroupOff(l) + |Part(l.group)| }
  function DaclOff(l: Layout): nat { SaclOff(l) + |Part(l.sacl)| }

  lemma HeaderSlices(r: byte, z: byte, c: seq<byte>, w: seq<byte>, x: seq<byte>, y: seq<byte>, v: seq<byte>)
    requires |c| == 2 && |w| == 4 && |x| == 4 && |y| == 4 && |v| == 4
    ensures var s := [r, z] + c + w + x + y + v;
      && s[0] == r && s[1] == z && s[2..4] == c && s[4..8] == w && s[8..12] == x
      && s[12..16] == y && s[16..20] == v
  {
  }

  lemma FrontSlices(h: seq<byte>, rest: seq<byte>)
    requires |h| == SD_HEADER
    ensures var s := h + rest;
      && s[0] == h[0] && s[1] == h[1] && s[2..4] == h[2..4] && s[4..8] == h[4..8] && s[8..12] == h[8..12]
      && s[12..16] == h[12..16] && s[16..20] == h[16..20]
  {
  }

  lemma HeaderReads(revision: byte, sbz1: byte, control: bv16, a: nat, b: nat, c: nat, d: nat)
    requires a < Pow256(4) && b < Pow256(4) && c < Pow256(4) && d < Pow256(4)
    ensures var h := SdHeader(revision, sbz1, control, a, b, c, d);
      && h[0] == revision && h[1] == sbz1 && FromLE(h[2..4]) == control as int
      && FromLE(h[4..8]) == a && FromLE(h[8..12]) == b && FromLE(h[12..16]) == c && FromLE(h[16..20]) == d
  {
    hide FromLE, ToLE;
    PowValues();
    HeaderSlices(revision, sbz1, ToLE(control as int, 2), ToLE(a, 4), ToLE(b, 4), ToLE(c, 4), ToLE(d, 4));
    LeRoundTrip(control as int, 2);
    LeRoundTrip(a, 4);
    LeRoundTrip(b, 4);
    LeRoundTrip(c, 4);
    LeRoundTrip(d, 4);
  }

  /** The header parses back to what was assembled. */
  lemma HeaderParses(revision: byte, sbz1: byte, control: bv16, l: Layout)
    requires DaclOff(l) < Pow256(4)
    ensures var s := Assemble(revision, sbz1, control, l.owner, l.group, l.sacl, l.dacl);
      ParseSd(s) == Some(Sd(revision, sbz1, control, Off(l.owner, OwnerOff(l)), Off(l.group, GroupOff(l)),
                            Off(l.sacl, SaclOff(l)), Off(l.dacl, DaclOff(l)), s))
  {
    hide FromLE, ToLE, SdHeader, EndToEnd, Part, Pow256;
    var a, b, c, d := Off(l.owner, OwnerOff(l)), Off(l.group, GroupOff(l)), Off(l.sacl, SaclOff(l)), Off(l.dacl, DaclOff(l));
    HeaderReads(revision, sbz1, control, a, b, c, d);
    FrontSlices(SdHeader(revision, sbz1, control, a, b, c, d), EndToEnd(l.owner, l.group, l.sacl, l.dacl));
  }

  lemma Dropped(a: seq<byte>, b: seq<byte>)
    ensures (a + b)[|a|..] == b
  {
  }

  /** Each part is found at its offset. */
  lemma PartsFound(revision: byte, sbz1: byte, control: bv16, l: Layout)
    ensures var s := Assemble(revision, sbz1, control, l.owner, l.group, l.sacl, l.dacl);
      && s[OwnerOff(l)..] == Part(l.owner) + (Part(l.group) + (Part(l.sacl) + Part(l.dacl)))
      && s[GroupOff(l)..] == Part(l.group) + (Part(l.sacl) + Part(l.dacl))
      && s[SaclOff(l)..] == Part(l.sacl) + Part(l.dacl)
      && s[DaclOff(l)..] == Part(l.dacl) + []
  {
    hide SdHeader, Part, Off;
    var s := Assemble(revision, sbz1, control, l.owner, l.group, l.sacl, l.dacl);
    var o, g, sa, da := Part(l.owner), Part(l.group), Part(l.sacl), Part(l.dacl);
    Dropped(s[..SD_HEADER], o + (g + (sa + da)));
    assert s == s[..SD_HEADER] + (o + (g + (sa + da)));
    Dropped(o, g + (sa + da));
    assert s[GroupOff(l)..] == s[SD_HEADER..][|o|..];
    Dropped(g, sa + da);
    assert s[SaclOff(l)..] == s[GroupOff(l)..][|g|..];
    Dropped(sa, da);
    assert s[DaclOff(l)..] == s[SaclOff(l)..][|sa|..];
  }

  function LayoutOf(p: SdParts): Layout
    requires Buildable(p)
  {
    Layout(SidPart(p.owner), SidPart(p.group), AclPart(p.sacl), AclPart(p.dacl))
  }

  predicate GoodSid(s: Option<Sid>) {
    s.Some? ==> TypedSid(s.value) && CanonicalSid(s.value)
  }

  /** The SID's bytes are what the offset leads to. */
  predicate SidStored(sd: Sd, off: nat, s: Option<Sid>) {
    if s.None? then off == 0 else 0 < off <= |sd.bytes| && EncodeSid(s.value) <= sd.bytes[off..]
  }

  lemma SidFound(s: Sid, off: nat, rest: seq<byte>, sd: Sd)
    requires TypedSid(s) && CanonicalSid(s) && 0 < off <= |sd.bytes| && sd.bytes[off..] == EncodeSid(s) + rest
    ensures SidAtOffset(sd, off) == Some(s)
  {
    SidRoundTripExact(s, rest);
  }

  /** A list read back: the bytes that were built, and the ACEs in order with their bodies padded. */
  predicate ListIs(r: AclRef, aces: Option<seq<Ace>>)
    requires aces.Some? ==> AclFits(aces.value)
  {
    if aces.None? then r == Absent
    else
      && r.Present? && r.acl.bytes == BuildAcl(aces.value).value && |r.acl.bytes| >= 8
      && AcesOf(r.acl) == AceList(PadAll(aces.value), true)
  }

  lemma AclFound(aces: seq<Ace>, off: nat, rest: seq<byte>, sd: Sd)
    requires AclFits(aces) && 0 < off <= |sd.bytes| && sd.bytes[off..] == BuildAcl(aces).value + rest
    ensures ListIs(AclAtOffset(sd, true, off), Some(aces))
  {
    hide IterAces, BuildAcl;
    AclRoundTrip(aces, rest);
  }

  /** A control word is self-relative, says which lists there are, and is otherwise what was asked for. */
  predicate ControlSays(w: bv16, p: SdParts) {
    && w & 0x8000 != 0
    && (w & 0x0010 != 0 <==> p.sacl.Some? || p.control & 0x0010 != 0)
    && (w & 0x0004 != 0 <==> p.dacl.Some? || p.control & 0x0004 != 0)
    && w & 0x7feb == p.control & 0x7feb
  }

  lemma ControlIs(p: SdParts)
    ensures ControlSays(ControlOf(p), p)
  {
  }

  lemma ControlBits(p: SdParts)
    ensures p.sacl.Some? ==> ControlOf(p) & SE_SACL_PRESENT != 0
    ensures p.dacl.Some? ==> ControlOf(p) & SE_DACL_PRESENT != 0
    ensures ControlOf(p) & SE_SELF_RELATIVE != 0
  {
  }

  /**
   * Everything `SdBuilder::build` accepts is recovered by parsing: owner, group, control word, and
   * both lists, ACE for ACE with bodies padded. The descriptor must be addressable by its own
   * 32-bit offsets and its SIDs expressible on the wire.
   */
  lemma SdRoundTrip(p: SdParts)
    requires Buildable(p) && GoodSid(p.owner) && GoodSid(p.group)
    ensures ParseSd(BuildSd(p).value).Some?
    ensures var sd := ParseSd(BuildSd(p).value).value;
      && sd.control == ControlOf(p) && sd.revision == 1 && sd.bytes == BuildSd(p).value
      && ControlSays(sd.control, p)
      && Owner(sd) == p.owner && Group(sd) == p.group
      && SidStored(sd, sd.ownerOff, p.owner) && SidStored(sd, sd.groupOff, p.group)
      && ListIs(Sacl(sd), p.sacl) && ListIs(Dacl(sd), p.dacl)
  {
    hide BuildAcl, EncodeSid, ParseSid, AclAtOffset, ParseAcl, IterAces, Assemble, ParseSd, SidAtOffset, ListIs, ControlOf, ControlSays;
    var l := LayoutOf(p);
    ControlIs(p);
    SizesSmall(p);
    HeaderParses(1, 0, ControlOf(p), l);
    PartsFound(1, 0, ControlOf(p), l);
    ControlBits(p);
    var sd := ParseSd(BuildSd(p).value).value;
    NothingAt(sd);
    if p.owner.Some? { SidFound(p.owner.value, OwnerOff(l), Part(l.group) + (Part(l.sacl) + Part(l.dacl)), sd); }
    if p.group.Some? { SidFound(p.group.value, GroupOff(l), Part(l.sacl) + Part(l.dacl), sd); }
    if p.sacl.Some? { AclFound(p.sacl.value, SaclOff(l), Part(l.dacl), sd); }
    if p.dacl.Some? { AclFound(p.dacl.value, DaclOff(l), [], sd); }
  }

  lemma NothingAt(sd: Sd)
    ensures SidAtOffset(sd, 0) == None
    ensures forall b :: ListIs(AclAtOffset(sd, b, 0), None)
  {
  }

  /** With a byte for each SID's count and a 16-bit size for each list, every offset fits 32 bits. */
  lemma SizesSmall(p: SdParts)
    requires Buildable(p) && GoodSid(p.owner) && GoodSid(p.group)
    ensures DaclOff(LayoutOf(p)) < Pow256(4)
  {
    PowValues();
  }
}
