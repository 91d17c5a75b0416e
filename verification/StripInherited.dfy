/** Stripping inherited ACEs from a descriptor's lists. */
module StripInherited {
  import opened Bytes
  import opened SidWire
  import opened SecurityDescriptor
  import opened Inherit
  import opened Reinherit

  /** An ACE re-emitted with its own size, without padding. */
  function RawAce(a: Ace): (s: seq<byte>)
    ensures |s| == 4 + |a.body|
  {
    [a.aceType, a.flags as int] + ToLE(4 + |a.body|, 2) + a.body
  }

  function RawAces(aces: seq<Ace>): seq<byte> {
    if aces == [] then [] else RawAce(aces[0]) + RawAces(aces[1..])
  }

  function RawAcl(revision: byte, sbz1: byte, aces: seq<Ace>): seq<byte> {
    [revision, sbz1] + ToLE(8 + |RawAces(aces)|, 2) + ToLE(|aces|, 2) + [0, 0] + RawAces(aces)
  }

  /** `filter_acl`: the ACEs without the inherited flag, header recomputed; nothing if an ACE is malformed. */
  function FilterAcl(acl: Acl): Option<seq<byte>>
    requires |acl.bytes| >= 8
  {
    var r := AcesOf(acl);
    var kept := Explicit(r.aces);
    if !r.ok || 8 + |RawAces(kept)| > U16_MAX then None else Some(RawAcl(acl.revision, acl.bytes[1], kept))
  }

  /** `filter_acl` as its loop runs. */
  method FilterLoop(acl: Acl) returns (r: Option<seq<byte>>)
    requires |acl.bytes| >= 8
    ensures r == FilterAcl(acl)
  {
    hide IterAces, Has, RawAce, Explicit, RawAces;
    var list := AcesOf(acl);
    var aces := list.aces;
    var bytes: seq<byte>, kept := [], 0;
    ghost var done: seq<Ace> := [];
    RawOne(Ace(0, 0, []));
    assert aces[0..] == aces && [] + Explicit(aces) == Explicit(aces);
    for i := 0 to |aces|
      invariant Explicit(aces) == done + Explicit(aces[i..])
      invariant bytes == RawAces(done) && kept == |done|
    {
      assert aces[i..][0] == aces[i] && aces[i..][1..] == aces[i + 1..];
      ExplicitUnfold(aces[i..]);
      if Has(aces[i].flags, INHERITED) {
        assert [] + Explicit(aces[i + 1..]) == Explicit(aces[i + 1..]);
        continue;
      }
      assert done + ([aces[i]] + Explicit(aces[i + 1..])) == done + [aces[i]] + Explicit(aces[i + 1..]);
      RawAppend(done, [aces[i]]);
      RawOne(aces[i]);
      bytes := bytes + RawAce(aces[i]);
      kept := kept + 1;
      done := done + [aces[i]];
    }
    NothingExplicit();
    assert aces[|aces|..] == [] && done + [] == done;
    if !list.ok { return None; }
    var total := 8 + |bytes|;
    if total > U16_MAX { return None; }
    r := Some([acl.revision, acl.bytes[1]] + ToLE(total, 2) + ToLE(kept, 2) + [0, 0] + bytes);
  }

  lemma RawOne(a: Ace)
    ensures RawAces([a]) == RawAce(a) && RawAces([]) == []
  {
    hide RawAce;
    assert [a][1..] == [];
    assert RawAce(a) + [] == RawAce(a);
  }

  lemma {:induction false} RawAppend(a: seq<Ace>, b: seq<Ace>)
    ensures RawAces(a + b) == RawAces(a) + RawAces(b)
    decreases |a|
  {
    hide RawAce;
    if a == [] {
      assert a + b == b;
    } else {
      RawAppend(a[1..], b);
      assert (a + b)[1..] == a[1..] + b;
    }
  }

  datatype AclOut = BadAcl | NoAcl | AclBytes(b: seq<byte>)

  /** `resolve_acl`: filtered when selected, copied verbatim otherwise. */
  function ResolveAcl(r: AclRef, strip: bool): AclOut {
    match r
    case Absent => NoAcl
    case Malformed => BadAcl
    case Present(acl) =>
      if |acl.bytes| < 8 then BadAcl
      else if !strip then AclBytes(acl.bytes)
      else match FilterAcl(acl) case None => BadAcl case Some(b) => AclBytes(b)
  }

  function BytesOut(a: AclOut): Option<seq<byte>> {
    if a.AclBytes? then Some(a.b) else None
  }

  predicate Selects(info: bv32, bit: bv32) {
    info & bit != 0
  }

  /** `strip_inherited_aces`. */
  function Strip(sd: Sd, info: bv32): Option<seq<byte>> {
    if sd.control & SE_SELF_RELATIVE == 0 then None
    else if !Selects(info, DACL_INFORMATION) && !Selects(info, SACL_INFORMATION) then Some(sd.bytes)
    else
      var owner, group := VerbatimSid(sd.bytes, sd.ownerOff), VerbatimSid(sd.bytes, sd.groupOff);
      var sacl := ResolveAcl(Sacl(sd), Selects(info, SACL_INFORMATION));
      var dacl := ResolveAcl(Dacl(sd), Selects(info, DACL_INFORMATION));
      if owner.BadSid? || group.BadSid? || sacl.BadAcl? || dacl.BadAcl? then None
      else Some(Assemble(sd.revision, sd.sbz1, sd.control, AsOption(owner), AsOption(group), BytesOut(sacl), BytesOut(dacl)))
  }

  // ---- a filtered list reads back as exactly the ACEs kept ----

  lemma RawAceHeader(a: Ace, rest: seq<byte>)
    requires 4 + |a.body| <= U16_MAX
    ensures var s := RawAce(a) + rest; var n := 4 + |a.body|;
      && s[0] == a.aceType && (s[1] as int) as bv8 == a.flags && FromLE(s[2..4]) == n
      && s[4..n] == a.body && s[n..] == rest
  {
    var s := RawAce(a) + rest;
    assert s[2..4] == ToLE(4 + |a.body|, 2);
    PowValues();
    LeRoundTrip(4 + |a.body|, 2);
  }

  lemma {:induction false} RawRoundTrip(aces: seq<Ace>, rest: seq<byte>)
    requires |RawAces(aces)| <= U16_MAX
    ensures IterAces(RawAces(aces) + rest, |aces|) == AceList(aces, true)
    decreases |aces|
  {
    hide RawAce, FromLE;
    if aces != [] {
      var more := RawAces(aces[1..]) + rest;
      assert RawAces(aces) + rest == RawAce(aces[0]) + more;
      RawAceHeader(aces[0], more);
      RawRoundTrip(aces[1..], rest);
      assert aces == [aces[0]] + aces[1..];
    }
  }

  lemma FilteredParses(acl: Acl, rest: seq<byte>)
    requires |acl.bytes| >= 8 && FilterAcl(acl).Some? && acl.aceCount <= U16_MAX
    ensures var b := FilterAcl(acl).value; var r := ParseAcl(b + rest);
      && |b| >= 8 && r.Some? && r.value.bytes == b && r.value.revision == acl.revision
      && AcesOf(r.value) == AceList(Explicit(AcesOf(acl).aces), true)
  {
    hide RawAces;
    var kept := Explicit(AcesOf(acl).aces);
    var body, b := RawAces(kept), FilterAcl(acl).value;
    var s := b + rest;
    ExplicitShorter(AcesOf(acl).aces);
    PowValues();
    LeRoundTrip(8 + |body|, 2);
    LeRoundTrip(|kept|, 2);
    assert s[2..4] == ToLE(8 + |body|, 2) && s[4..6] == ToLE(|kept|, 2);
    assert s[..|b|] == b && b[8..] == body;
    RawRoundTrip(kept, []);
    assert body + [] == body;
  }

  lemma {:induction false} ExplicitShorter(aces: seq<Ace>)
    ensures |Explicit(aces)| <= |aces|
    decreases |aces|
  {
    hide Has;
    if aces != [] {
      ExplicitShorter(aces[1..]);
    }
  }

  /** The kept ACEs never outgrow the list they came from, so filtering a readable list succeeds. */
  /** The bytes a first ACE takes, kept or not, are at least those it is kept in. */
  lemma RawFirst(a: Ace, rest: seq<Ace>)
    ensures |RawAces(Explicit([a] + rest))| <= 4 + |a.body| + |RawAces(Explicit(rest))|
  {
    hide Has, Explicit, RawAces;
    var s := [a] + rest;
    ExplicitUnfold(s);
    assert s[0] == a && s[1..] == rest;
    RawOne(a);
    RawAppend(First(s), Explicit(rest));
    assert First(s) == [a] || First(s) == [];
  }

  lemma {:induction false} RawFits(s: seq<byte>, n: nat)
    ensures |RawAces(Explicit(IterAces(s, n).aces))| <= |s|
    decreases n
  {
    hide Explicit, RawAces, FromLE;
    NothingExplicit();
    RawOne(Ace(0, 0, []));
    if n > 0 && |s| >= 4 {
      var size := FromLE(s[2..4]);
      if 4 <= size <= |s| {
        RawFits(s[size..], n - 1);
        var rest := IterAces(s[size..], n - 1);
        RawFirst(Ace(s[0], (s[1] as int) as bv8, s[4..size]), rest.aces);
      }
    }
  }

  lemma FilterSucceeds(acl: Acl)
    requires 8 <= |acl.bytes| <= U16_MAX && AcesOf(acl).ok
    ensures FilterAcl(acl).Some?
  {
    RawFits(acl.bytes[8..], acl.aceCount);
  }

  // ---- what stripping leaves ----

  /** A list after stripping: as it was, or only its explicit ACEs. */
  predicate Stripped(was: AclRef, now: AclRef, strip: bool)
    requires Addressable(was) && Addressable(now)
  {
    && now.Present? == was.Present?
    && AcesIn(now) == if strip then Explicit(AcesIn(was)) else AcesIn(was)
  }

  /** A list that came out of the parser. */
  predicate Parsed(r: AclRef) {
    r.Present? ==>
      && r.acl.size == |r.acl.bytes| && 8 <= r.acl.size <= U16_MAX && r.acl.aceCount <= U16_MAX
      && ParseAcl(r.acl.bytes) == Some(r.acl)
  }

  lemma ParsedList(sd: Sd, present: bool, off: nat)
    requires Addressable(AclAtOffset(sd, present, off))
    ensures Parsed(AclAtOffset(sd, present, off))
  {
    var r := AclAtOffset(sd, present, off);
    if r.Present? {
      var s := sd.bytes[off..];
      var b := r.acl.bytes;
      assert b[2..4] == s[2..4] && b[4..6] == s[4..6] && b[..|b|] == b;
    }
  }

  lemma VerbatimParses(acl: Acl, rest: seq<byte>)
    requires ParseAcl(acl.bytes) == Some(acl) && |acl.bytes| >= 8
    ensures ParseAcl(acl.bytes + rest) == Some(acl)
  {
    var s, b := acl.bytes + rest, acl.bytes;
    assert s[2..4] == b[2..4] && s[4..6] == b[4..6] && s[..|b|] == b && b[..|b|] == b;
  }

  lemma ListStripped(was: AclRef, strip: bool, sd: Sd, present: bool, off: nat, rest: seq<byte>)
    requires Addressable(was) && Parsed(was) && !ResolveAcl(was, strip).BadAcl? && (was.Present? ==> present)
    requires var b := BytesOut(ResolveAcl(was, strip));
      if b.None? then off == 0 else 0 < off <= |sd.bytes| && sd.bytes[off..] == b.value + rest
    ensures var now := AclAtOffset(sd, present, off); Addressable(now) && Stripped(was, now, strip)
  {
    hide IterAces, FilterAcl, Explicit, ParseAcl;
    if was.Present? {
      if strip {
        FilteredParses(was.acl, rest);
      } else {
        VerbatimParses(was.acl, rest);
      }
    } else {
      NothingExplicit();
    }
  }

  lemma SidKept(sd: Sd, off: nat, sd': Sd, off': nat, rest: seq<byte>)
    requires !VerbatimSid(sd.bytes, off).BadSid?
    requires var b := AsOption(VerbatimSid(sd.bytes, off));
      if b.None? then off' == 0 else 0 < off' <= |sd'.bytes| && sd'.bytes[off'..] == b.value + rest
    ensures SidAtOffset(sd', off') == SidAtOffset(sd, off)
  {
    hide EncodeSid, ParseSid, VerbatimSid;
    VerbatimIsEncoded(sd, off);
    var s := SidAtOffset(sd, off);
    if s.Some? {
      SidFound(s.value, off', rest, sd');
    }
  }

  lemma VerbatimShort(bytes: seq<byte>, off: nat)
    ensures |Part(AsOption(VerbatimSid(bytes, off)))| <= 1028
  {
  }

  lemma ResolvedShort(r: AclRef, strip: bool)
    requires Parsed(r)
    ensures |Part(BytesOut(ResolveAcl(r, strip)))| <= U16_MAX
  {
    hide IterAces, RawAces;
  }

  /**
   * Stripping keeps the owner, the group and the control word, and leaves each list as it was or,
   * where selected, with exactly its explicit ACEs in order.
   */
  lemma StripLeaves(sd: Sd, info: bv32)
    requires ParseSd(sd.bytes) == Some(sd) && ListsAddressable(sd) && Strip(sd, info).Some?
    ensures ParseSd(Strip(sd, info).value).Some?
    ensures var sd' := ParseSd(Strip(sd, info).value).value;
      && sd'.control == sd.control && sd'.revision == sd.revision
      && Owner(sd') == Owner(sd) && Group(sd') == Group(sd)
      && ListsAddressable(sd')
      && Stripped(Sacl(sd), Sacl(sd'), Selects(info, SACL_INFORMATION))
      && Stripped(Dacl(sd), Dacl(sd'), Selects(info, DACL_INFORMATION))
  {
    hide AclAtOffset, ResolveAcl, VerbatimSid, SidAtOffset, Assemble, ParseSd, Stripped, Parsed;
    if !Selects(info, DACL_INFORMATION) && !Selects(info, SACL_INFORMATION) {
      NotStripped(Sacl(sd));
      NotStripped(Dacl(sd));
    } else {
      var owner, group := VerbatimSid(sd.bytes, sd.ownerOff), VerbatimSid(sd.bytes, sd.groupOff);
      var stripSacl, stripDacl := Selects(info, SACL_INFORMATION), Selects(info, DACL_INFORMATION);
      var sacl, dacl := ResolveAcl(Sacl(sd), stripSacl), ResolveAcl(Dacl(sd), stripDacl);
      var l := Layout(AsOption(owner), AsOption(group), BytesOut(sacl), BytesOut(dacl));
      ParsedList(sd, sd.control & SE_SACL_PRESENT != 0, sd.saclOff);
      ParsedList(sd, sd.control & SE_DACL_PRESENT != 0, sd.daclOff);
      VerbatimShort(sd.bytes, sd.ownerOff);
      VerbatimShort(sd.bytes, sd.groupOff);
      ResolvedShort(Sacl(sd), stripSacl);
      PowValues();
      HeaderParses(sd.revision, sd.sbz1, sd.control, l);
      PartsFound(sd.revision, sd.sbz1, sd.control, l);
      var sd' := ParseSd(Strip(sd, info).value).value;
      SidKept(sd, sd.ownerOff, sd', sd'.ownerOff, Part(l.group) + (Part(l.sacl) + Part(l.dacl)));
      SidKept(sd, sd.groupOff, sd', sd'.groupOff, Part(l.sacl) + Part(l.dacl));
      PresentBit(sd, sd.control & SE_SACL_PRESENT != 0, sd.saclOff);
      PresentBit(sd, sd.control & SE_DACL_PRESENT != 0, sd.daclOff);
      ListStripped(Sacl(sd), stripSacl, sd', sd.control & SE_SACL_PRESENT != 0, sd'.saclOff, Part(l.dacl));
      ListStripped(Dacl(sd), stripDacl, sd', sd.control & SE_DACL_PRESENT != 0, sd'.daclOff, []);
    }
  }

  lemma NotStripped(r: AclRef)
    requires Addressable(r)
    ensures Stripped(r, r, false)
  {
  }

  lemma PresentBit(sd: Sd, present: bool, off: nat)
    ensures AclAtOffset(sd, present, off).Present? ==> present
  {
  }

  /**
   * Stripping a re-propagated descriptor succeeds and leaves exactly the child's explicit ACEs, in
   * order, in the lists re-propagation left: an absent list is not mistaken for an empty one.
   */
  lemma StripUndoesReinherit(parent: Sd, child: Sd, container: bool, mapping: Option<GenericMapping>, info: bv32)
    requires ListsAddressable(parent) && ListsAddressable(child)
    requires ReinheritWith(parent, child, container, mapping, info).Some?
    ensures var out := ReinheritWith(parent, child, container, mapping, info).value;
      && ParseSd(out).Some? && Strip(ParseSd(out).value, info).Some?
      && ParseSd(Strip(ParseSd(out).value, info).value).Some?
      && var sd := ParseSd(Strip(ParseSd(out).value, info).value).value;
      && ListsAddressable(sd)
      && (Selects(info, DACL_INFORMATION) ==> AcesIn(Dacl(sd)) == PadAll(Explicit(AcesIn(Dacl(child)))))
      && (Selects(info, SACL_INFORMATION) ==> AcesIn(Sacl(sd)) == PadAll(Explicit(AcesIn(Sacl(child)))))
      && var facts := Facts(child, container, mapping);
      && Dacl(sd).Present? == PresentAfter(Dacl(child), Dacl(parent), RedoDacl(child.control, info), facts)
      && Sacl(sd).Present? == PresentAfter(Sacl(child), Sacl(parent), RedoSacl(child.control, info), facts)
  {
    hide AclAtOffset, ResolveAcl, VerbatimSid, SidAtOffset, Assemble, ParseSd, Explicit, PadAll, IterAces, ListOf, BuildAcl,
         Sacl, Dacl, RedoDacl, RedoSacl, ControlOf, ListAfter, ListIs, Selects, Redone;
    RedoneReadsBack(parent, child, container, mapping, info);
    ListsAfterwards(parent, child, container, mapping, info);
    var p := Redone(parent, child, container, mapping, info).p;
    var sd := ParseSd(ReinheritWith(parent, child, container, mapping, info).value).value;
    var facts := Facts(child, container, mapping);
    ControlBits(p);
    ReadableResolves(Sacl(sd), p.sacl, Selects(info, SACL_INFORMATION));
    ReadableResolves(Dacl(sd), p.dacl, Selects(info, DACL_INFORMATION));
    StripLeaves(sd, info);
    ExplicitAfter(Dacl(child), Dacl(sd), Dacl(parent), RedoDacl(child.control, info), facts);
    ExplicitAfter(Sacl(child), Sacl(sd), Sacl(parent), RedoSacl(child.control, info), facts);
  }

  lemma ReadableResolves(r: AclRef, l: Option<seq<Ace>>, strip: bool)
    requires (l.Some? ==> AclFits(l.value)) && ListIs(r, l)
    ensures !ResolveAcl(r, strip).BadAcl?
  {
    hide IterAces, FilterAcl, PadAll, BuildAces;
    if l.Some? {
      FilterSucceeds(r.acl);
    }
  }

  lemma ExplicitAfter(was: AclRef, now: AclRef, parent: AclRef, redo: bool, facts: Child)
    requires Addressable(was) && Addressable(now) && Addressable(parent) && ListAfter(was, now, parent, redo, facts)
    ensures Explicit(AcesIn(now)) == PadAll(Explicit(AcesIn(was)))
    ensures now.Present? == PresentAfter(was, parent, redo, facts)
  {
    hide Explicit, PadAll, Passed, AcesIn;
    if redo {
      RedoneExplicit(AcesIn(was), parent, facts);
    } else {
      ExplicitPadded(AcesIn(was));
    }
  }
}
