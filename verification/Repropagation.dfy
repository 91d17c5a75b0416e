/** Re-propagation and stripping as they run: lists rebuilt ACE by ACE, descriptors reassembled and backfilled. */
module Repropagation {
  import opened Bytes
  import opened SidWire
  import opened SecurityDescriptor
  import opened DescriptorBuilders
  import opened Inherit
  import opened Reinherit
  import opened StripInherited

  /** The ACEs of a child's list that are kept: all of them, or those it did not inherit. */
  function Own(aces: seq<Ace>, explicitOnly: bool): seq<Ace> {
    if explicitOnly then Explicit(aces) else aces
  }

  lemma OwnStep(out: seq<Ace>, a: Ace, rest: seq<Ace>, explicitOnly: bool)
    ensures out + Own([a] + rest, explicitOnly)
      == (if explicitOnly && Has(a.flags, INHERITED) then out else out + [a]) + Own(rest, explicitOnly)
  {
    hide Has, Explicit;
    var s := [a] + rest;
    assert s[0] == a && s[1..] == rest;
    ExplicitUnfold(s);
    assert out + ([a] + rest) == out + [a] + rest;
    assert out + ([a] + Explicit(rest)) == out + [a] + Explicit(rest);
    assert [] + Explicit(rest) == Explicit(rest);
  }

  /** The loops of `list` over the child's own ACEs. */
  method OwnAces(acl: Acl, explicitOnly: bool) returns (r: AceList)
    requires |acl.bytes| >= 8
    ensures r.ok == AcesOf(acl).ok
    ensures r.ok ==> r.aces == Own(AcesOf(acl).aces, explicitOnly)
  {
    hide IterAces, Has, Own;
    var it := new AceIter(acl);
    var out: seq<Ace> := [];
    while true
      invariant it.Left().ok == AcesOf(acl).ok
      invariant out + Own(it.Left().aces, explicitOnly) == Own(AcesOf(acl).aces, explicitOnly)
      decreases it.remaining
    {
      var item := it.Next();
      match item
      case End =>
        OwnNothing(explicitOnly);
        return AceList(out, true);
      case Bad => return AceList(out, false);
      case Good(a) =>
        OwnStep(out, a, it.Left().aces, explicitOnly);
        if !explicitOnly || !Has(a.flags, INHERITED) {
          out := out + [a];
        }
    }
  }

  lemma OwnNothing(explicitOnly: bool)
    ensures Own([], explicitOnly) == []
  {
  }

  /** `list`. */
  method BuildList(child: AclRef, parent: AclRef, redo: bool, facts: Child) returns (r: ListOut)
    requires Addressable(child) && Addressable(parent)
    ensures r == ListOf(child, parent, redo, facts)
  {
    hide IterAces, Explicit, InheritAll;
    if child.Malformed? {
      return BadList;
    }
    var own := AceList([], true);
    if child.Present? {
      own := OwnAces(child.acl, redo);
      if !own.ok {
        return BadList;
      }
    }
    if !redo {
      return if child.Absent? then NoList else List(own.aces);
    }
    if parent.Malformed? {
      return BadList;
    }
    var passed: seq<Ace> := [];
    if parent.Present? {
      passed := InheritedAces(parent.acl, facts);
    }
    if child.Absent? && passed == [] {
      return NoList;
    }
    assert [] + passed == passed;
    return List(own.aces + passed);
  }

  /** `reinherit_with`, on parsed descriptors. */
  method Repropagate(parent: Sd, child: Sd, container: bool, mapping: Option<GenericMapping>, info: bv32)
    returns (r: Option<seq<byte>>)
    requires ListsAddressable(parent) && ListsAddressable(child)
    ensures r == ReinheritWith(parent, child, container, mapping, info)
  {
    hide BuildSd, ListOf, VerbatimSid, AclAtOffset, SidAtOffset, ExtraControl, RedoDacl, RedoSacl;
    if child.control & SE_SELF_RELATIVE == 0 {
      return None;
    }
    var owner, group := VerbatimSid(child.bytes, child.ownerOff), VerbatimSid(child.bytes, child.groupOff);
    if owner.BadSid? || group.BadSid? {
      return None;
    }
    var facts := Facts(child, container, mapping);
    var sacl := BuildList(Sacl(child), Sacl(parent), RedoSacl(child.control, info), facts);
    if sacl.BadList? {
      return None;
    }
    var dacl := BuildList(Dacl(child), Dacl(parent), RedoDacl(child.control, info), facts);
    if dacl.BadList? {
      return None;
    }
    var extra := ExtraControl(child.control, info);
    r := BuildSdBytes(SdParts(Owner(child), Group(child), AcesOut(sacl), AcesOut(dacl), extra));
  }

  /** `resolve_acl`. */
  method ResolveBytes(acl: AclRef, strip: bool) returns (r: AclOut)
    ensures r == ResolveAcl(acl, strip)
  {
    hide FilterAcl;
    match acl
    case Absent => return NoAcl;
    case Malformed => return BadAcl;
    case Present(a) =>
      if |a.bytes| < 8 {
        return BadAcl;
      }
      if !strip {
        return AclBytes(a.bytes);
      }
      var kept := FilterLoop(a);
      return if kept.Some? then AclBytes(kept.value) else BadAcl;
  }

  method AppendPart(body: seq<byte>, part: Option<seq<byte>>) returns (out: seq<byte>, off: nat)
    ensures out == body + Part(part) && off == Off(part, SD_HEADER + |body|)
  {
    out, off := body, 0;
    if part.Some? {
      off := SD_HEADER + |body|;
      out := body + part.value;
    }
  }

  /** The reassembly: four parts after a blank header, whose offsets are filled in last. */
  method Reassemble(sd: Sd, owner: Option<seq<byte>>, group: Option<seq<byte>>, sacl: Option<seq<byte>>, dacl: Option<seq<byte>>)
    returns (out: seq<byte>)
    ensures out == Assemble(sd.revision, sd.sbz1, sd.control, owner, group, sacl, dacl)
  {
    hide SdHeader, Part, Off, Zeros;
    var body, ownerOff := AppendPart([], owner);
    var groupOff, saclOff, daclOff;
    body, groupOff := AppendPart(body, group);
    body, saclOff := AppendPart(body, sacl);
    body, daclOff := AppendPart(body, dacl);
    assert [] + Part(owner) == Part(owner);
    Regroup(Part(owner), Part(group), Part(sacl), Part(dacl));
    out := FillHeader(Zeros(SD_HEADER) + body, body, sd.revision, sd.sbz1, sd.control, ownerOff, groupOff, saclOff, daclOff);
  }

  /** `strip_inherited_aces`, on a parsed descriptor. */
  method StripBytes(sd: Sd, info: bv32) returns (r: Option<seq<byte>>)
    ensures r == Strip(sd, info)
  {
    hide VerbatimSid, AclAtOffset, ResolveAcl, Assemble, Selects;
    if sd.control & SE_SELF_RELATIVE == 0 {
      return None;
    }
    var stripDacl, stripSacl := Selects(info, DACL_INFORMATION), Selects(info, SACL_INFORMATION);
    if !stripDacl && !stripSacl {
      return Some(sd.bytes);
    }
    var owner, group := VerbatimSid(sd.bytes, sd.ownerOff), VerbatimSid(sd.bytes, sd.groupOff);
    var sacl := ResolveBytes(Sacl(sd), stripSacl);
    var dacl := ResolveBytes(Dacl(sd), stripDacl);
    if owner.BadSid? || group.BadSid? || sacl.BadAcl? || dacl.BadAcl? {
      return None;
    }
    var out := Reassemble(sd, AsOption(owner), AsOption(group), BytesOut(sacl), BytesOut(dacl));
    return Some(out);
  }
}
