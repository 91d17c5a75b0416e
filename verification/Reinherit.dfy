/** Re-propagation of a parent's ACEs to an existing child descriptor, and the stripping of inherited ACEs. */
module Reinherit {
  import opened Bytes
  import opened SidWire
  import opened SecurityDescriptor
  import opened Inherit

  const DACL_INFORMATION: bv32 := 0x4
  const SACL_INFORMATION: bv32 := 0x8

  /** Every list's size field covers its header, as iterating its ACEs needs. */
  predicate ListsAddressable(sd: Sd) {
    && (Sacl(sd).Present? ==> |Sacl(sd).acl.bytes| >= 8)
    && (Dacl(sd).Present? ==> |Dacl(sd).acl.bytes| >= 8)
  }

  predicate Addressable(r: AclRef) {
    r.Present? ==> |r.acl.bytes| >= 8
  }

  datatype SidBytes = BadSid | NoSidBytes | SidBytes(b: seq<byte>)

  /** `verbatim_sid`: the bytes of the SID at `off`; zero means absent. */
  function VerbatimSid(bytes: seq<byte>, off: nat): SidBytes {
    if off == 0 then NoSidBytes
    else if off > |bytes| then BadSid
    else match ParseSid(bytes[off..]) case NoSid => BadSid case SidAt(_, used) => SidBytes(bytes[off..off + used])
  }

  function AsOption(s: SidBytes): Option<seq<byte>> {
    if s.SidBytes? then Some(s.b) else None
  }

  /** The ACEs a list did not inherit, in order. */
  function Explicit(aces: seq<Ace>): seq<Ace> {
    if aces == [] then []
    else (if Has(aces[0].flags, INHERITED) then [] else [aces[0]]) + Explicit(aces[1..])
  }

  datatype ListOut = BadList | NoList | List(aces: seq<Ace>)

  /** The copies the parent's list makes for `facts`; none when the parent has no list. */
  function Passed(parent: AclRef, facts: Child): seq<Ace>
    requires Addressable(parent)
  {
    if parent.Present? then InheritAll(AcesOf(parent.acl).aces, facts) else []
  }

  /** `list`: untouched, or `Explicit` followed by `Passed`; `NoList` when there is nothing to hold. */
  function ListOf(child: AclRef, parent: AclRef, redo: bool, facts: Child): ListOut
    requires Addressable(child) && Addressable(parent)
  {
    if child.Malformed? then BadList
    else if child.Present? && !AcesOf(child.acl).ok then BadList
    else if !redo then
      if child.Absent? then NoList else List(AcesOf(child.acl).aces)
    else if parent.Malformed? then BadList
    else
      var passed := Passed(parent, facts);
      if child.Absent? then (if passed == [] then NoList else List(passed))
      else List(Explicit(AcesOf(child.acl).aces) + passed)
  }

  function AcesOut(l: ListOut): Option<seq<Ace>> {
    if l.List? then Some(l.aces) else None
  }

  const KEPT_CONTROL: bv16 :=
    SE_DACL_AUTO_INHERITED | SE_DACL_PROTECTED | SE_SACL_AUTO_INHERITED | SE_SACL_PROTECTED

  predicate RedoDacl(control: bv16, info: bv32) {
    info & DACL_INFORMATION != 0 && control & SE_DACL_PROTECTED == 0
  }

  predicate RedoSacl(control: bv16, info: bv32) {
    info & SACL_INFORMATION != 0 && control & SE_SACL_PROTECTED == 0
  }

  function ExtraControl(control: bv16, info: bv32): bv16 {
    (control & KEPT_CONTROL)
    | (if RedoDacl(control, info) then SE_DACL_AUTO_INHERITED else 0)
    | (if RedoSacl(control, info) then SE_SACL_AUTO_INHERITED else 0)
  }

  /** The facts of the child that resolution uses. */
  function Facts(child: Sd, container: bool, mapping: Option<GenericMapping>): Child {
    Child(container, AsOption(VerbatimSid(child.bytes, child.ownerOff)),
          AsOption(VerbatimSid(child.bytes, child.groupOff)), mapping)
  }

  datatype PartsOut = NoParts | Parts(p: SdParts)

  /** Everything `reinherit_with` hands to the builder, or nothing on a malformed input. */
  function Redone(parent: Sd, child: Sd, container: bool, mapping: Option<GenericMapping>, info: bv32): PartsOut
    requires ListsAddressable(parent) && ListsAddressable(child)
  {
    if child.control & SE_SELF_RELATIVE == 0 then NoParts
    else if VerbatimSid(child.bytes, child.ownerOff).BadSid? || VerbatimSid(child.bytes, child.groupOff).BadSid? then NoParts
    else
      var facts := Facts(child, container, mapping);
      var sacl := ListOf(Sacl(child), Sacl(parent), RedoSacl(child.control, info), facts);
      var dacl := ListOf(Dacl(child), Dacl(parent), RedoDacl(child.control, info), facts);
      if sacl.BadList? || dacl.BadList? then NoParts
      else Parts(SdParts(Owner(child), Group(child), AcesOut(sacl), AcesOut(dacl), ExtraControl(child.control, info)))
  }

  /** `reinherit_with`. */
  function ReinheritWith(parent: Sd, child: Sd, container: bool, mapping: Option<GenericMapping>, info: bv32): Option<seq<byte>>
    requires ListsAddressable(parent) && ListsAddressable(child)
  {
    match Redone(parent, child, container, mapping, info)
    case NoParts => None
    case Parts(p) => BuildSd(p)
  }

  // ---- what re-propagation reads is what it wrote ----

  /** A SID that is copied verbatim is the one the accessor decodes, and encodes to the same bytes. */
  lemma VerbatimIsEncoded(sd: Sd, off: nat)
    requires !VerbatimSid(sd.bytes, off).BadSid?
    ensures GoodSid(SidAtOffset(sd, off)) && AsOption(VerbatimSid(sd.bytes, off)) == SidPart(SidAtOffset(sd, off))
  {
    hide EncodeSid;
    if off != 0 {
      ParsedSidEncodes(sd.bytes[off..]);
      var used := ParseSid(sd.bytes[off..]).used;
      assert sd.bytes[off..][..used] == sd.bytes[off..off + used];
    }
  }

  lemma StoredIsVerbatim(sd: Sd, off: nat, s: Option<Sid>)
    requires GoodSid(s) && SidStored(sd, off, s)
    ensures !VerbatimSid(sd.bytes, off).BadSid? && AsOption(VerbatimSid(sd.bytes, off)) == SidPart(s)
  {
    hide EncodeSid, ParseSid;
    if s.Some? {
      var e, tail := EncodeSid(s.value), sd.bytes[off..];
      assert tail == e + tail[|e|..];
      SidRoundTripExact(s.value, tail[|e|..]);
      assert tail[..|e|] == e == sd.bytes[off..off + |e|];
    }
  }

  lemma ControlStable(c: bv16, info: bv32, p: SdParts)
    requires p.control == ExtraControl(c, info)
    ensures RedoDacl(ControlOf(p), info) == RedoDacl(c, info) && RedoSacl(ControlOf(p), info) == RedoSacl(c, info)
    ensures ExtraControl(ControlOf(p), info) == ExtraControl(c, info)
  {
    KeptBits(ControlOf(p), p.control, p);
  }

  lemma KeptBits(d: bv16, x: bv16, p: SdParts)
    requires d == ControlOf(p) && x == p.control
    ensures d & KEPT_CONTROL == x & KEPT_CONTROL
    ensures d & SE_DACL_PROTECTED == x & SE_DACL_PROTECTED && d & SE_SACL_PROTECTED == x & SE_SACL_PROTECTED
  {
  }

  /** The first ACE if it is explicit. */
  function First(s: seq<Ace>): seq<Ace>
    requires s != []
  {
    if Has(s[0].flags, INHERITED) then [] else [s[0]]
  }

  lemma ExplicitUnfold(s: seq<Ace>)
    ensures Explicit(s) == if s == [] then [] else First(s) + Explicit(s[1..])
  {
    hide Has;
  }

  lemma FirstOfBoth(a: seq<Ace>, b: seq<Ace>)
    requires a != []
    ensures First(a + b) == First(a)
  {
    hide Has;
    assert (a + b)[0] == a[0];
  }

  lemma {:induction false} ExplicitAppend(a: seq<Ace>, b: seq<Ace>)
    ensures Explicit(a + b) == Explicit(a) + Explicit(b)
    decreases |a|
  {
    hide Explicit, First, Has;
    var s := a + b;
    ExplicitUnfold(a);
    if a == [] {
      assert s == b;
    } else {
      ExplicitAppend(a[1..], b);
      ExplicitUnfold(s);
      assert s[1..] == a[1..] + b;
      FirstOfBoth(a, b);
      var f, x, y := First(a), Explicit(a[1..]), Explicit(b);
      assert f + (x + y) == f + x + y;
    }
  }

  lemma {:induction false} ExplicitPadded(a: seq<Ace>)
    ensures Explicit(PadAll(a)) == PadAll(Explicit(a))
    decreases |a|
  {
    hide Has;
    if a != [] {
      ExplicitPadded(a[1..]);
      assert PadAll(a)[1..] == PadAll(a[1..]);
    }
  }

  lemma {:induction false} ExplicitTwice(a: seq<Ace>)
    ensures Explicit(Explicit(a)) == Explicit(a)
    decreases |a|
  {
    hide Has;
    if a != [] {
      ExplicitTwice(a[1..]);
      ExplicitAppend(if Has(a[0].flags, INHERITED) then [] else [a[0]], Explicit(a[1..]));
      assert Explicit([a[0]][1..]) == [];
    }
  }

  lemma {:induction false} NoneExplicit(aces: seq<Ace>, child: Child)
    ensures Explicit(InheritAll(aces, child)) == []
    decreases |aces|
  {
    hide Has, InheritAce;
    if aces != [] {
      CopiesAreInherited(aces[0], child);
      AllInherited(InheritAce(aces[0], child));
      NoneExplicit(aces[1..], child);
      ExplicitAppend(InheritAce(aces[0], child), InheritAll(aces[1..], child));
    }
  }

  lemma {:induction false} AllInherited(aces: seq<Ace>)
    requires forall i :: 0 <= i < |aces| ==> Has(aces[i].flags, INHERITED)
    ensures Explicit(aces) == []
    decreases |aces|
  {
    hide Has;
    if aces != [] {
      AllInherited(aces[1..]);
    }
  }

  /** What is explicit in a redone list is what was explicit in the child's, padded. */
  lemma RedoneExplicit(child: seq<Ace>, parent: AclRef, facts: Child)
    requires Addressable(parent)
    ensures Explicit(PadAll(Explicit(child) + Passed(parent, facts))) == PadAll(Explicit(child))
  {
    hide InheritAll, IterAces;
    var passed := Passed(parent, facts);
    ExplicitPadded(Explicit(child) + passed);
    ExplicitAppend(Explicit(child), passed);
    ExplicitTwice(child);
    if parent.Present? {
      NoneExplicit(AcesOf(parent.acl).aces, facts);
    }
  }

  /** The second time round each list is rebuilt byte for byte. */
  lemma ListStable(child: AclRef, parent: AclRef, redo: bool, facts: Child, again: AclRef)
    requires Addressable(child) && Addressable(parent) && !ListOf(child, parent, redo, facts).BadList?
    requires var l := AcesOut(ListOf(child, parent, redo, facts));
      (l.Some? ==> AclFits(l.value)) && ListIs(again, l)
    ensures Addressable(again)
    ensures var l, l' := ListOf(child, parent, redo, facts), ListOf(again, parent, redo, facts);
      && l'.NoList? == l.NoList? && l'.List? == l.List?
      && (l.List? ==> BuildAcl(l'.aces) == BuildAcl(l.aces))
  {
    hide BuildAcl, InheritAll, IterAces, Explicit, PadAll;
    var l := ListOf(child, parent, redo, facts);
    if l.List? {
      BuildAclPadded(l.aces);
      if redo {
        var was, passed := if child.Present? then AcesOf(child.acl).aces else [], Passed(parent, facts);
        assert Explicit([]) == [] by { NothingExplicit(); }
        assert l.aces == Explicit(was) + passed;
        RedoneExplicit(was, parent, facts);
        PadTwice(Explicit(was), passed);
        BuildAclPadded(PadAll(Explicit(was)) + passed);
      }
    }
  }

  lemma NothingExplicit()
    ensures Explicit([]) == []
  {
  }

  lemma PadTwice(a: seq<Ace>, b: seq<Ace>)
    ensures PadAll(PadAll(a) + b) == PadAll(a + b)
  {
    var x, y := PadAll(PadAll(a) + b), PadAll(a + b);
    forall i | 0 <= i < |x| ensures x[i] == y[i] {
      hide Padded;
      if i < |a| {
        BuildPadded(a[i]);
        assert (PadAll(a) + b)[i] == Padded(a[i]) && (a + b)[i] == a[i];
      } else {
        assert (PadAll(a) + b)[i] == b[i - |a|] == (a + b)[i];
      }
    }
  }

  lemma RedoneIsGood(parent: Sd, child: Sd, container: bool, mapping: Option<GenericMapping>, info: bv32)
    requires ListsAddressable(parent) && ListsAddressable(child)
    requires Redone(parent, child, container, mapping, info).Parts?
    ensures var p := Redone(parent, child, container, mapping, info).p;
      && GoodSid(p.owner) && GoodSid(p.group)
      && SidPart(p.owner) == Facts(child, container, mapping).owner
      && SidPart(p.group) == Facts(child, container, mapping).group
  {
    hide ListOf, VerbatimSid, SidAtOffset;
    VerbatimIsEncoded(child, child.ownerOff);
    VerbatimIsEncoded(child, child.groupOff);
  }

  /** The descriptor re-propagation writes, read back. */
  lemma RedoneReadsBack(parent: Sd, child: Sd, container: bool, mapping: Option<GenericMapping>, info: bv32)
    requires ListsAddressable(parent) && ListsAddressable(child)
    requires ReinheritWith(parent, child, container, mapping, info).Some?
    ensures var out := ReinheritWith(parent, child, container, mapping, info).value;
      var p := Redone(parent, child, container, mapping, info).p;
      && Buildable(p) && ParseSd(out).Some?
      && var sd := ParseSd(out).value;
      && sd.bytes == out && sd.control == ControlOf(p) && Owner(sd) == Owner(child) && Group(sd) == Group(child)
      && ListIs(Sacl(sd), p.sacl) && ListIs(Dacl(sd), p.dacl) && ListsAddressable(sd)
      && Facts(sd, container, mapping) == Facts(child, container, mapping)
      && !VerbatimSid(sd.bytes, sd.ownerOff).BadSid? && !VerbatimSid(sd.bytes, sd.groupOff).BadSid?
  {
    hide ListOf, VerbatimSid, SidAtOffset, BuildAcl, Assemble, ParseSd, AclAtOffset, EncodeSid, ExtraControl, IterAces;
    RedoneIsGood(parent, child, container, mapping, info);
    var p := Redone(parent, child, container, mapping, info).p;
    SdRoundTrip(p);
    var sd := ParseSd(BuildSd(p).value).value;
    StoredIsVerbatim(sd, sd.ownerOff, p.owner);
    StoredIsVerbatim(sd, sd.groupOff, p.group);
  }

  /** Re-propagating twice from the same parent changes nothing, byte for byte. */
  lemma ReinheritIdempotent(parent: Sd, child: Sd, container: bool, mapping: Option<GenericMapping>, info: bv32)
    requires ListsAddressable(parent) && ListsAddressable(child)
    requires ReinheritWith(parent, child, container, mapping, info).Some?
    ensures var out := ReinheritWith(parent, child, container, mapping, info).value;
      && ParseSd(out).Some? && ListsAddressable(ParseSd(out).value)
      && ReinheritWith(parent, ParseSd(out).value, container, mapping, info) == Some(out)
  {
    hide ListOf, VerbatimSid, SidAtOffset, BuildAcl, Assemble, ParseSd, AclAtOffset, EncodeSid, ExtraControl, IterAces,
         ListIs, ControlOf, Sacl, Dacl, Facts, RedoDacl, RedoSacl;
    RedoneReadsBack(parent, child, container, mapping, info);
    var p := Redone(parent, child, container, mapping, info).p;
    var sd := ParseSd(BuildSd(p).value).value;
    var facts := Facts(child, container, mapping);
    ControlStable(child.control, info, p);
    ListStable(Sacl(child), Sacl(parent), RedoSacl(child.control, info), facts, Sacl(sd));
    ListStable(Dacl(child), Dacl(parent), RedoDacl(child.control, info), facts, Dacl(sd));
    ControlBits(p);
    SameBuild(p, Redone(parent, sd, container, mapping, info).p);
  }

  /** Parts that agree on everything but the padding of their ACEs build the same bytes. */
  lemma SameBuild(p: SdParts, q: SdParts)
    requires Buildable(p) && p.owner == q.owner && p.group == q.group && p.control == q.control
    requires p.sacl.Some? == q.sacl.Some? && p.dacl.Some? == q.dacl.Some?
    requires p.sacl.Some? ==> BuildAcl(q.sacl.value) == BuildAcl(p.sacl.value)
    requires p.dacl.Some? ==> BuildAcl(q.dacl.value) == BuildAcl(p.dacl.value)
    ensures BuildSd(q) == BuildSd(p)
  {
    hide Assemble, SidPart, ControlOf, Part, BuildAcl;
    SameControl(p, q);
    assert AclPart(p.sacl) == AclPart(q.sacl) && AclPart(p.dacl) == AclPart(q.dacl);
  }

  lemma SameControl(p: SdParts, q: SdParts)
    requires p.control == q.control && p.sacl.Some? == q.sacl.Some? && p.dacl.Some? == q.dacl.Some?
    ensures ControlOf(p) == ControlOf(q)
  {
    hide ControlWord;
  }

  /** The ACEs of a list that is there, and none otherwise. */
  function AcesIn(r: AclRef): seq<Ace>
    requires Addressable(r)
  {
    if r.Present? then AcesOf(r.acl).aces else []
  }

  /**
   * A list that is not redone keeps its presence and its ACEs, bodies padded; one that is redone
   * holds the child's explicit ACEs, in order, and then what the parent passes, and is new only
   * when something is.
   */
  predicate ListAfter(was: AclRef, now: AclRef, parent: AclRef, redo: bool, facts: Child)
    requires Addressable(was) && Addressable(now) && Addressable(parent)
  {
    && now.Present? == PresentAfter(was, parent, redo, facts)
    && AcesIn(now) == if redo then PadAll(Explicit(AcesIn(was)) + Passed(parent, facts)) else PadAll(AcesIn(was))
  }

  /** There is a list afterwards: there was one, or the redoing passes something to it. */
  predicate PresentAfter(was: AclRef, parent: AclRef, redo: bool, facts: Child)
    requires Addressable(parent)
  {
    was.Present? || (redo && Passed(parent, facts) != [])
  }

  lemma ListAfterwards(was: AclRef, now: AclRef, parent: AclRef, redo: bool, facts: Child)
    requires Addressable(was) && Addressable(parent) && !ListOf(was, parent, redo, facts).BadList?
    requires var l := AcesOut(ListOf(was, parent, redo, facts)); (l.Some? ==> AclFits(l.value)) && ListIs(now, l)
    ensures Addressable(now) && ListAfter(was, now, parent, redo, facts)
  {
    hide BuildAcl, IterAces, InheritAll, PadAll, Explicit;
    NothingExplicit();
    NothingPadded();
    var passed := Passed(parent, facts);
    assert [] + passed == passed;
  }

  /** Unselected and protected lists are left alone; the others are the explicit ACEs and the parent's. */
  lemma ListsAfterwards(parent: Sd, child: Sd, container: bool, mapping: Option<GenericMapping>, info: bv32)
    requires ListsAddressable(parent) && ListsAddressable(child)
    requires ReinheritWith(parent, child, container, mapping, info).Some?
    ensures var out := ReinheritWith(parent, child, container, mapping, info).value;
      && ParseSd(out).Some? && ListsAddressable(ParseSd(out).value)
      && var sd, facts := ParseSd(out).value, Facts(child, container, mapping);
      && ListAfter(Dacl(child), Dacl(sd), Dacl(parent), RedoDacl(child.control, info), facts)
      && ListAfter(Sacl(child), Sacl(sd), Sacl(parent), RedoSacl(child.control, info), facts)
      && Owner(sd) == Owner(child) && Group(sd) == Group(child)
  {
    hide ListOf, VerbatimSid, SidAtOffset, BuildAcl, Assemble, ParseSd, AclAtOffset, EncodeSid, ExtraControl, IterAces,
         ListIs, ControlOf, Sacl, Dacl, Facts, RedoDacl, RedoSacl, ListAfter;
    RedoneReadsBack(parent, child, container, mapping, info);
    var sd := ParseSd(ReinheritWith(parent, child, container, mapping, info).value).value;
    var facts := Facts(child, container, mapping);
    ListAfterwards(Sacl(child), Sacl(sd), Sacl(parent), RedoSacl(child.control, info), facts);
    ListAfterwards(Dacl(child), Dacl(sd), Dacl(parent), RedoDacl(child.control, info), facts);
  }

  lemma NothingPadded()
    ensures PadAll([]) == []
  {
  }

  lemma AlignedUnpadded(aces: seq<Ace>)
    requires AllAligned(aces)
    ensures PadAll(aces) == aces
  {
  }
}
