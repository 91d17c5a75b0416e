/**
 * What re-propagation and stripping do to a descriptor, told from its control word and the selection
 * mask with every bit written out (sections 2.4.6 and 2.5.3.4 of MS-DTYP).
 */
module DescriptorRules {
  import opened Bytes
  import opened SidWire
  import opened SecurityDescriptor
  import opened Inherit
  import opened Reinherit
  import opened StripInherited

  // ---- what is found at an offset ----

  /** A SID is found at an offset exactly where its bytes stand; offset zero means there is none. */
  lemma SidFoundExact(sd: Sd, off: nat, s: Sid)
    ensures SidAtOffset(sd, off) == Some(s) <==>
      && 0 < off <= |sd.bytes|
      && TypedSid(s) && CanonicalSid(s) && EncodeSid(s) <= sd.bytes[off..]
  {
    hide ParseSid, TypedSid, CanonicalSid, EncodeSid;
    if 0 < off <= |sd.bytes| {
      ParseSidExact(sd.bytes[off..], s, |EncodeSid(s)|);
      EncodedLength(s);
      if SidAtOffset(sd, off) == Some(s) {
        ParseSidExact(sd.bytes[off..], s, ParseSid(sd.bytes[off..]).used);
      }
    }
  }

  lemma EncodedLength(s: Sid)
    ensures |EncodeSid(s)| >= 8
  {
  }

  /** The size and the number of ACEs a list at `off` claims. */
  function SizeAt(bytes: seq<byte>, off: nat): nat
    requires off + 8 <= |bytes|
  {
    (bytes[off + 2] as int) + 256 * (bytes[off + 3] as int)
  }

  function CountAt(bytes: seq<byte>, off: nat): nat
    requires off + 8 <= |bytes|
  {
    (bytes[off + 4] as int) + 256 * (bytes[off + 5] as int)
  }

  lemma TwoBytes(bytes: seq<byte>, i: nat)
    requires i + 2 <= |bytes|
    ensures FromLE(bytes[i..i + 2]) == (bytes[i] as int) + 256 * (bytes[i + 1] as int)
  {
    var s := bytes[i..i + 2];
    assert s[1..][1..] == [];
    assert FromLE(s[1..]) == s[1];
  }

  /** What a list reference is, told from the bytes. */
  predicate RefersTo(r: AclRef, bytes: seq<byte>, present: bool, off: nat) {
    if !present || off == 0 then r == Absent
    else if off + 8 > |bytes| || off + SizeAt(bytes, off) > |bytes| then r == Malformed
    else
      && r.Present? && r.acl.bytes == bytes[off..off + SizeAt(bytes, off)]
      && r.acl.revision == bytes[off] && r.acl.aceCount == CountAt(bytes, off)
  }

  lemma RefersExact(sd: Sd, present: bool, off: nat)
    ensures RefersTo(AclAtOffset(sd, present, off), sd.bytes, present, off)
  {
    hide FromLE;
    if present && 0 < off < |sd.bytes| {
      var t := sd.bytes[off..];
      if |t| >= 8 {
        TwoBytes(t, 2);
        TwoBytes(t, 4);
        assert t[2] == sd.bytes[off + 2] && t[3] == sd.bytes[off + 3] && t[4] == sd.bytes[off + 4] && t[5] == sd.bytes[off + 5];
        var n := SizeAt(sd.bytes, off);
        if n <= |t| {
          assert t[..n] == sd.bytes[off..off + n];
        }
      }
    }
  }

  /**
   * A list is absent where its bit (0x0004, 0x0010) or its offset is zero, malformed where its header or
   * the size in it does not fit, and otherwise exactly the bytes its size field covers.
   */
  lemma ListsFound(sd: Sd)
    ensures RefersTo(Dacl(sd), sd.bytes, sd.control & 0x0004 != 0, sd.daclOff)
    ensures RefersTo(Sacl(sd), sd.bytes, sd.control & 0x0010 != 0, sd.saclOff)
  {
    hide AclAtOffset, RefersTo;
    RefersExact(sd, sd.control & SE_DACL_PRESENT != 0, sd.daclOff);
    RefersExact(sd, sd.control & SE_SACL_PRESENT != 0, sd.saclOff);
  }

  // ---- the selection ----

  /** A DACL is redone when it is selected (4) and not protected (0x1000), a SACL likewise (8, 0x2000). */
  lemma RedoBits(c: bv16, info: bv32)
    ensures RedoDacl(c, info) <==> info & 0x4 != 0 && c & 0x1000 == 0
    ensures RedoSacl(c, info) <==> info & 0x8 != 0 && c & 0x2000 == 0
  {
  }

  lemma SelectedBits(info: bv32)
    ensures Selects(info, DACL_INFORMATION) <==> info & 0x4 != 0
    ensures Selects(info, SACL_INFORMATION) <==> info & 0x8 != 0
  {
  }

  // ---- the control word ----

  /** The bits that say a list is there, and the one that says the offsets are relative. */
  lemma PresenceBits(c: bv16, info: bv32, sacl: bool, dacl: bool)
    ensures var w := ControlWord(ExtraControl(c, info), sacl, dacl);
      && (w & 0x0004 != 0 <==> dacl) && (w & 0x0010 != 0 <==> sacl) && w & 0x8000 != 0
      && w & 0x43eb == 0 && w & 0x3000 == c & 0x3000
  {
    hide RedoDacl, RedoSacl;
  }

  lemma InheritedBits(c: bv16, info: bv32, sacl: bool, dacl: bool)
    ensures var w := ControlWord(ExtraControl(c, info), sacl, dacl);
      && (w & 0x0400 != 0 <==> c & 0x0400 != 0 || RedoDacl(c, info))
      && (w & 0x0800 != 0 <==> c & 0x0800 != 0 || RedoSacl(c, info))
  {
    hide RedoDacl, RedoSacl;
  }

  /**
   * The control word of a re-propagated descriptor, bit by bit. A list is marked auto-inherited (0x0400,
   * 0x0800) when it was before or was redone now, protection (0x1000, 0x2000) stays as it was, a list
   * is marked present (0x0004, 0x0010) when it is there, the descriptor is self-relative (0x8000), and
   * no other bit is set.
   */
  lemma ControlAfterwards(parent: Sd, child: Sd, container: bool, mapping: Option<GenericMapping>, info: bv32)
    requires ListsAddressable(parent) && ListsAddressable(child)
    requires ReinheritWith(parent, child, container, mapping, info).Some?
    ensures var out := ReinheritWith(parent, child, container, mapping, info).value;
      && ParseSd(out).Some?
      && var sd, c := ParseSd(out).value, child.control;
      && (sd.control & 0x0400 != 0 <==> c & 0x0400 != 0 || (info & 0x4 != 0 && c & 0x1000 == 0))
      && (sd.control & 0x0800 != 0 <==> c & 0x0800 != 0 || (info & 0x8 != 0 && c & 0x2000 == 0))
      && sd.control & 0x3000 == c & 0x3000
      && (sd.control & 0x0004 != 0 <==> Dacl(sd).Present?)
      && (sd.control & 0x0010 != 0 <==> Sacl(sd).Present?)
      && sd.control & 0x8000 != 0
      && sd.control & 0x43eb == 0
  {
    hide ListOf, VerbatimSid, SidAtOffset, BuildAcl, BuildSd, ParseSd, AclAtOffset, IterAces, ExtraControl, Facts,
         RedoDacl, RedoSacl, ControlWord, Sacl, Dacl, PadAll;
    RedoneReadsBack(parent, child, container, mapping, info);
    var p := Redone(parent, child, container, mapping, info).p;
    RedoBits(child.control, info);
    PresenceBits(child.control, info, p.sacl.Some?, p.dacl.Some?);
    InheritedBits(child.control, info, p.sacl.Some?, p.dacl.Some?);
  }

  // ---- the lists ----

  lemma FactsAre(child: Sd, container: bool, mapping: Option<GenericMapping>)
    requires !VerbatimSid(child.bytes, child.ownerOff).BadSid? && !VerbatimSid(child.bytes, child.groupOff).BadSid?
    ensures Facts(child, container, mapping) == Child(container, SidPart(Owner(child)), SidPart(Group(child)), mapping)
  {
    hide VerbatimSid, SidAtOffset;
    VerbatimIsEncoded(child, child.ownerOff);
    VerbatimIsEncoded(child, child.groupOff);
  }

  /**
   * The lists of a re-propagated descriptor: redone where selected and unprotected, for a child of
   * the given kind with the owner and group the descriptor names, and left alone otherwise.
   */
  lemma RepropagatedLists(parent: Sd, child: Sd, container: bool, mapping: Option<GenericMapping>, info: bv32)
    requires ListsAddressable(parent) && ListsAddressable(child)
    requires ReinheritWith(parent, child, container, mapping, info).Some?
    ensures var out := ReinheritWith(parent, child, container, mapping, info).value;
      && ParseSd(out).Some? && ListsAddressable(ParseSd(out).value)
      && var sd, c := ParseSd(out).value, child.control;
      && var facts := Child(container, SidPart(Owner(child)), SidPart(Group(child)), mapping);
      && ListAfter(Dacl(child), Dacl(sd), Dacl(parent), info & 0x4 != 0 && c & 0x1000 == 0, facts)
      && ListAfter(Sacl(child), Sacl(sd), Sacl(parent), info & 0x8 != 0 && c & 0x2000 == 0, facts)
      && Owner(sd) == Owner(child) && Group(sd) == Group(child)
  {
    hide ListOf, VerbatimSid, SidAtOffset, BuildSd, ParseSd, AclAtOffset, ExtraControl, Facts, RedoDacl, RedoSacl,
         Sacl, Dacl, ListAfter, SidPart;
    ListsAfterwards(parent, child, container, mapping, info);
    RedoBits(child.control, info);
    FactsAre(child, container, mapping);
  }

  /** Only its flags say whether an ACE was inherited (0x10). */
  lemma {:induction false} ExplicitExact(aces: seq<Ace>, a: Ace)
    ensures a in Explicit(aces) <==> a in aces && a.flags & 0x10 == 0
    decreases |aces|
  {
    if aces != [] {
      ExplicitExact(aces[1..], a);
      hide Explicit;
      ExplicitUnfold(aces);
      assert a in aces <==> a == aces[0] || a in aces[1..];
    }
  }

  // ---- when the calls fail ----

  /** An offset is zero or leads to a SID. */
  predicate LeadsToSid(bytes: seq<byte>, off: nat) {
    off == 0 || (off <= |bytes| && ParseSid(bytes[off..]).SidAt?)
  }

  /** A list that is absent, or whose ACEs can all be read. */
  predicate Readable(r: AclRef)
    requires Addressable(r)
  {
    r.Absent? || (r.Present? && AcesOf(r.acl).ok)
  }

  lemma LeadsExact(bytes: seq<byte>, off: nat)
    ensures VerbatimSid(bytes, off).BadSid? <==> !LeadsToSid(bytes, off)
  {
  }

  /** The ACEs a list would hold afterwards. */
  function Wanted(was: AclRef, parent: AclRef, redo: bool, facts: Child): seq<Ace>
    requires Addressable(was) && Addressable(parent)
  {
    if redo then Explicit(AcesIn(was)) + Passed(parent, facts) else AcesIn(was)
  }

  /** A list can be rebuilt: it can be read, the parent's can if it is needed, and the result fits. */
  predicate Rebuilds(was: AclRef, parent: AclRef, redo: bool, facts: Child)
    requires Addressable(was) && Addressable(parent)
  {
    Readable(was) && (redo ==> !parent.Malformed?) && AclFits(Wanted(was, parent, redo, facts))
  }

  lemma NoAcesFit()
    ensures AclFits([]) && Explicit([]) == []
  {
  }

  lemma RebuildsExact(was: AclRef, parent: AclRef, redo: bool, facts: Child)
    requires Addressable(was) && Addressable(parent)
    ensures var l := ListOf(was, parent, redo, facts);
      Rebuilds(was, parent, redo, facts) <==> !l.BadList? && (l.List? ==> AclFits(l.aces))
  {
    hide IterAces, Explicit, InheritAll, AclFits;
    NoAcesFit();
    var passed := if parent.Malformed? then [] else Passed(parent, facts);
    assert [] + passed == passed;
  }

  /**
   * Re-propagation succeeds exactly when the child is self-relative (0x8000), its owner and group
   * offsets are zero or lead to a SID, and each list can be rebuilt.
   */
  lemma RepropagatesExact(parent: Sd, child: Sd, container: bool, mapping: Option<GenericMapping>, info: bv32)
    requires ListsAddressable(parent) && ListsAddressable(child)
    ensures ReinheritWith(parent, child, container, mapping, info).Some? <==>
      && child.control & 0x8000 != 0
      && LeadsToSid(child.bytes, child.ownerOff) && LeadsToSid(child.bytes, child.groupOff)
      && var c, facts := child.control, Child(container, SidPart(Owner(child)), SidPart(Group(child)), mapping);
      && Rebuilds(Sacl(child), Sacl(parent), info & 0x8 != 0 && c & 0x2000 == 0, facts)
      && Rebuilds(Dacl(child), Dacl(parent), info & 0x4 != 0 && c & 0x1000 == 0, facts)
  {
    hide ListOf, VerbatimSid, LeadsToSid, SidAtOffset, AclAtOffset, Facts, RedoDacl, RedoSacl, Sacl, Dacl, SidPart, Rebuilds,
         AclFits, ExtraControl;
    LeadsExact(child.bytes, child.ownerOff);
    LeadsExact(child.bytes, child.groupOff);
    RedoBits(child.control, info);
    if LeadsToSid(child.bytes, child.ownerOff) && LeadsToSid(child.bytes, child.groupOff) {
      FactsAre(child, container, mapping);
      var facts := Facts(child, container, mapping);
      RebuildsExact(Sacl(child), Sacl(parent), RedoSacl(child.control, info), facts);
      RebuildsExact(Dacl(child), Dacl(parent), RedoDacl(child.control, info), facts);
    }
  }

  /**
   * Stripping succeeds exactly on a self-relative descriptor (0x8000) of which nothing is selected, or
   * whose owner and group can be read and whose lists can, where they are selected.
   */
  lemma StripsExact(sd: Sd, info: bv32)
    requires ParseSd(sd.bytes) == Some(sd) && ListsAddressable(sd)
    ensures Strip(sd, info).Some? <==>
      && sd.control & 0x8000 != 0
      && (info & 0xc == 0 || (
           && LeadsToSid(sd.bytes, sd.ownerOff) && LeadsToSid(sd.bytes, sd.groupOff)
           && !Sacl(sd).Malformed? && !Dacl(sd).Malformed?
           && (info & 0x8 != 0 ==> Readable(Sacl(sd))) && (info & 0x4 != 0 ==> Readable(Dacl(sd)))))
  {
    hide VerbatimSid, LeadsToSid, AclAtOffset, Selects, ResolveAcl, ParseSd, Readable, Assemble;
    LeadsExact(sd.bytes, sd.ownerOff);
    LeadsExact(sd.bytes, sd.groupOff);
    SelectedBits(info);
    Unselected(info);
    ParsedList(sd, sd.control & SE_SACL_PRESENT != 0, sd.saclOff);
    ParsedList(sd, sd.control & SE_DACL_PRESENT != 0, sd.daclOff);
    ResolvesExact(Sacl(sd), Selects(info, SACL_INFORMATION));
    ResolvesExact(Dacl(sd), Selects(info, DACL_INFORMATION));
  }

  lemma Unselected(info: bv32)
    ensures info & 0xc == 0 <==> info & 0x4 == 0 && info & 0x8 == 0
  {
  }

  lemma ResolvesExact(r: AclRef, strip: bool)
    requires Addressable(r) && Parsed(r)
    ensures ResolveAcl(r, strip).BadAcl? <==> r.Malformed? || (strip && !Readable(r))
  {
    hide IterAces, FilterAcl, ParseAcl;
    if r.Present? {
      FilterExact(r.acl);
    }
  }

  lemma FilterExact(acl: Acl)
    requires 8 <= |acl.bytes| <= 65535
    ensures FilterAcl(acl).Some? <==> AcesOf(acl).ok
  {
    hide IterAces;
    if AcesOf(acl).ok {
      FilterSucceeds(acl);
    }
  }

  /** Stripping keeps owner, group and control word, and of each selected list the explicit ACEs in order. */
  lemma StrippedLists(sd: Sd, info: bv32)
    requires ParseSd(sd.bytes) == Some(sd) && ListsAddressable(sd) && Strip(sd, info).Some?
    ensures ParseSd(Strip(sd, info).value).Some?
    ensures var sd' := ParseSd(Strip(sd, info).value).value;
      && sd'.control == sd.control && sd'.revision == sd.revision
      && Owner(sd') == Owner(sd) && Group(sd') == Group(sd)
      && ListsAddressable(sd')
      && Stripped(Sacl(sd), Sacl(sd'), info & 0x8 != 0) && Stripped(Dacl(sd), Dacl(sd'), info & 0x4 != 0)
  {
    hide Strip, ParseSd, AclAtOffset, SidAtOffset, Stripped, Selects, Sacl, Dacl;
    StripLeaves(sd, info);
    SelectedBits(info);
  }
}
