/** ACE inheritance (section 2.5.3.4.4 of MS-DTYP): what one level passes to the next. */
module Inherit {
  import opened Bytes
  import opened SidWire
  import opened SecurityDescriptor

  const OBJECT_INHERIT: bv8 := 0x01
  const CONTAINER_INHERIT: bv8 := 0x02
  const NO_PROPAGATE: bv8 := 0x04
  const INHERIT_ONLY: bv8 := 0x08
  const INHERITED: bv8 := 0x10
  const ALL_INHERIT_FLAGS: bv8 := 0x0f

  const GENERIC_ALL: bv32 := 0x1000_0000
  const GENERIC_EXECUTE: bv32 := 0x2000_0000
  const GENERIC_WRITE: bv32 := 0x4000_0000
  const GENERIC_READ: bv32 := 0x8000_0000
  const GENERIC_BITS: bv32 := 0xf000_0000

  /** The wire bytes of the two placeholder SIDs, S-1-3-0 and S-1-3-1. */
  const CREATOR_OWNER: seq<byte> := [1, 1, 0, 0, 0, 0, 0, 3, 0, 0, 0, 0]
  const CREATOR_GROUP: seq<byte> := [1, 1, 0, 0, 0, 0, 0, 3, 1, 0, 0, 0]

  datatype GenericMapping = GenericMapping(read: bv32, write: bv32, execute: bv32, all: bv32)

  /** The inputs of inheritance on the receiving side; SIDs are wire bytes. */
  datatype Child = Child(
    container: bool, owner: Option<seq<byte>>, group: Option<seq<byte>>, mapping: Option<GenericMapping>)

  datatype Span = NoSpan | Span(at: nat, len: nat)

  /** `sid_at`: the SID after the mask, or after the object flags and GUIDs; no span for other types. */
  function SidSpan(aceType: byte, body: seq<byte>): (r: Span)
    ensures r.Span? ==> 4 <= r.at && r.at + r.len <= |body|
  {
    if aceType <= 0x03 || aceType == 0x09 || aceType == 0x0a || aceType == 0x0d || aceType == 0x0e
       || 0x11 <= aceType <= 0x14 then
      SpanAt(body, 4)
    else if 0x05 <= aceType <= 0x08 || aceType == 0x0b || aceType == 0x0c || aceType == 0x0f || aceType == 0x10 then
      if |body| < 8 then NoSpan
      else
        var flags := FromLE(body[4..8]);
        SpanAt(body, 8 + (if flags % 2 == 1 then 16 else 0) + (if flags / 2 % 2 == 1 then 16 else 0))
    else NoSpan
  }

  function SpanAt(body: seq<byte>, at: nat): (r: Span)
    ensures r.Span? ==> r.at == at && at + r.len <= |body|
  {
    if at > |body| then NoSpan
    else match ParseSid(body[at..]) case NoSid => NoSpan case SidAt(_, used) => Span(at, used)
  }

  function Mask(body: seq<byte>): bv32
    requires |body| >= 4
  {
    LeInverse(body[..4]);
    PowValues();
    FromLE(body[..4]) as bv32
  }

  /** `resolvable`: a placeholder SID, or a generic right and a mapping to put it through. */
  predicate Resolvable(aceType: byte, body: seq<byte>, child: Child) {
    var p := SidSpan(aceType, body);
    && p.Span?
    && var sid := body[p.at..p.at + p.len];
    sid == CREATOR_OWNER || sid == CREATOR_GROUP || (child.mapping.Some? && Mask(body) & GENERIC_BITS != 0)
  }

  /** One turn of the loop in `map_mask`. */
  function MapBit(out: bv32, mask: bv32, bit: bv32, to: bv32): bv32 {
    if mask & bit != 0 then out | to else out
  }

  function MapMask(mask: bv32, m: GenericMapping): bv32 {
    var out := mask & !GENERIC_BITS;
    var out := MapBit(out, mask, GENERIC_READ, m.read);
    var out := MapBit(out, mask, GENERIC_WRITE, m.write);
    var out := MapBit(out, mask, GENERIC_EXECUTE, m.execute);
    MapBit(out, mask, GENERIC_ALL, m.all)
  }

  const MAX_BODY := 65528

  /** The body resolved for `child`: the creator SID replaced and the generic rights mapped. */
  function Resolve(aceType: byte, body: seq<byte>, child: Child): seq<byte> {
    var p := SidSpan(aceType, body);
    if p.NoSpan? then body
    else
      var mask := if child.mapping.Some? then MapMask(Mask(body), child.mapping.value) else Mask(body);
      var sid := body[p.at..p.at + p.len];
      var sid' :=
        if sid == CREATOR_OWNER then (if child.owner.Some? then child.owner.value else sid)
        else if sid == CREATOR_GROUP then (if child.group.Some? then child.group.value else sid)
        else sid;
      var body' := ToLE(mask as int, 4) + body[4..p.at] + sid' + body[p.at + p.len..];
      if |body'| > MAX_BODY then body else body'
  }

  predicate Has(f: bv8, bit: bv8) {
    f & bit != 0
  }

  /** Whether an ACE with flags `f` reaches the child at all. */
  predicate Reaches(f: bv8, container: bool) {
    && (Has(f, OBJECT_INHERIT) || (Has(f, CONTAINER_INHERIT) && container))
    && !(container && !Has(f, CONTAINER_INHERIT) && Has(f, NO_PROPAGATE))
  }

  /** The flags of the copy the child gets. */
  function CopyFlags(f: bv8, container: bool): bv8 {
    var f1 := (f | INHERITED) & !INHERIT_ONLY;
    var f2 :=
      if container && Has(f, OBJECT_INHERIT) && !Has(f, CONTAINER_INHERIT) && !Has(f, NO_PROPAGATE)
      then f1 | INHERIT_ONLY else f1;
    if Has(f, NO_PROPAGATE) || !container then f2 & !ALL_INHERIT_FLAGS else f2
  }

  /** The copies of an ACE that reaches the child with `flags`: a resolved and an inherit-only one, or one as written. */
  function Copies(aceType: byte, body: seq<byte>, flags: bv8, child: Child): seq<Ace> {
    var applies := !Has(flags, INHERIT_ONLY);
    var goesOn := Has(flags, OBJECT_INHERIT | CONTAINER_INHERIT);
    if Resolvable(aceType, body, child) then
      (if applies then [Ace(aceType, flags & !ALL_INHERIT_FLAGS, Resolve(aceType, body, child))] else [])
      + (if goesOn then [Ace(aceType, flags | INHERIT_ONLY, body)] else [])
    else [Ace(aceType, flags, body)]
  }

  /** What one parent ACE gives the child. */
  function InheritAce(a: Ace, child: Child): seq<Ace> {
    if !Reaches(a.flags, child.container) then []
    else Copies(a.aceType, a.body, CopyFlags(a.flags, child.container), child)
  }

  function InheritAll(aces: seq<Ace>, child: Child): seq<Ace> {
    if aces == [] then [] else InheritAce(aces[0], child) + InheritAll(aces[1..], child)
  }

  /** One turn of the loop in `inherited_aces`. */
  method PushInherited(out: seq<Ace>, a: Ace, child: Child) returns (out': seq<Ace>)
    ensures out' == out + InheritAce(a, child)
  {
    hide Resolve, Resolvable, Has;
    out' := out;
    var f := a.flags;
    var oi, ci, np := Has(f, OBJECT_INHERIT), Has(f, CONTAINER_INHERIT), Has(f, NO_PROPAGATE);
    if !(oi || (ci && child.container)) { return; }
    if child.container && !ci && np { return; }
    var flags := (f | INHERITED) & !INHERIT_ONLY;
    if child.container && oi && !ci && !np {
      flags := flags | INHERIT_ONLY;
    }
    if np || !child.container {
      flags := flags & !ALL_INHERIT_FLAGS;
    }
    assert flags == CopyFlags(f, child.container);
    assert InheritAce(a, child) == Copies(a.aceType, a.body, flags, child) by { hide Copies; }
    hide CopyFlags, Reaches, InheritAce;
    var applies := !Has(flags, INHERIT_ONLY);
    var goesOn := Has(flags, OBJECT_INHERIT | CONTAINER_INHERIT);
    if Resolvable(a.aceType, a.body, child) {
      if applies {
        out' := out' + [Ace(a.aceType, flags & !ALL_INHERIT_FLAGS, Resolve(a.aceType, a.body, child))];
      }
      if goesOn {
        out' := out' + [Ace(a.aceType, flags | INHERIT_ONLY, a.body)];
      }
    } else {
      out' := out' + [Ace(a.aceType, flags, a.body)];
    }
  }

  /** `inherited_aces`: the loop over a parsed parent list, its malformed tail skipped. */
  method InheritedAces(parent: Acl, child: Child) returns (out: seq<Ace>)
    requires |parent.bytes| >= 8
    ensures out == InheritAll(AcesOf(parent).aces, child)
  {
    hide InheritAce, IterAces;
    var aces := AcesOf(parent).aces;
    out := [];
    for i := 0 to |aces|
      invariant InheritAll(aces, child) == out + InheritAll(aces[i..], child)
    {
      assert aces[i..][0] == aces[i] && aces[i..][1..] == aces[i + 1..];
      ghost var rest := InheritAll(aces[i + 1..], child);
      assert out + (InheritAce(aces[i], child) + rest) == out + InheritAce(aces[i], child) + rest;
      out := PushInherited(out, aces[i], child);
    }
    assert out + [] == out;
  }

  // ---- inheritance composes ----

  /** The ACEs as the next level reads them, by `PassIsOnTheWire`. */
  function Pass(aces: seq<Ace>, child: Child): seq<Ace> {
    PadAll(InheritAll(aces, child))
  }

  /** Down a chain of containers. */
  function PassDown(aces: seq<Ace>, chain: seq<Child>): seq<Ace>
    decreases |chain|
  {
    if chain == [] then aces else PassDown(Pass(aces, chain[0]), chain[1..])
  }

  predicate AllAligned(aces: seq<Ace>) {
    forall i :: 0 <= i < |aces| ==> Aligned(aces[i])
  }

  predicate AllContainers(chain: seq<Child>) {
    forall i :: 0 <= i < |chain| ==> chain[i].container
  }

  /** The ACEs that are not stopped after one level. */
  function Propagating(aces: seq<Ace>): seq<Ace> {
    if aces == [] then []
    else (if Has(aces[0].flags, NO_PROPAGATE) then [] else [aces[0]]) + Propagating(aces[1..])
  }

  /** The flag algebra: a copy that goes on from a container is inherited below as its original would be. */
  lemma FlagsCompose(f: bv8, container: bool)
    requires !Has(f, NO_PROPAGATE) && Reaches(f, true)
    ensures var g := CopyFlags(f, true);
      && !Has(g, NO_PROPAGATE) && Has(g, OBJECT_INHERIT | CONTAINER_INHERIT)
      && (Reaches(g, container) <==> Reaches(f, container)) && CopyFlags(g, container) == CopyFlags(f, container)
      && (Reaches(g | INHERIT_ONLY, container) <==> Reaches(f, container))
      && CopyFlags(g | INHERIT_ONLY, container) == CopyFlags(f, container)
  {
  }

  lemma FlagsStop(f: bv8, container: bool)
    ensures !Reaches(f & !ALL_INHERIT_FLAGS, container)
    ensures Has(f, NO_PROPAGATE) ==>
      !Reaches(CopyFlags(f, true), container) && !Has(CopyFlags(f, true), OBJECT_INHERIT | CONTAINER_INHERIT)
    ensures !Reaches(f, true) ==> Has(f, NO_PROPAGATE) || !Reaches(f, container)
  {
  }

  /** Every copy is marked inherited. */
  lemma CopiesAreInherited(a: Ace, child: Child)
    ensures forall i :: 0 <= i < |InheritAce(a, child)| ==> Has(InheritAce(a, child)[i].flags, INHERITED)
  {
    hide Resolve, Resolvable;
    var f := CopyFlags(a.flags, child.container);
    assert Has(f, INHERITED) && Has(f & !ALL_INHERIT_FLAGS, INHERITED) && Has(f | INHERIT_ONLY, INHERITED);
  }

  /** An ACE whose flags stop here passes nothing on. */
  lemma StopsHere(a: Ace, child: Child)
    requires !Reaches(a.flags, child.container)
    ensures InheritAce(Padded(a), child) == []
  {
  }

  /** An ACE whose flags differ only in what the decision ignores is inherited alike. */
  lemma SameInheritance(a: Ace, g: bv8, child: Child)
    requires Reaches(g, child.container) <==> Reaches(a.flags, child.container)
    requires CopyFlags(g, child.container) == CopyFlags(a.flags, child.container)
    ensures InheritAce(a.(flags := g), child) == InheritAce(a, child)
  {
    hide Reaches, CopyFlags, Copies;
  }

  /** The flags a copy can have: stopped, as computed, or inherit-only besides. */
  lemma FlagsOfCopies(a: Ace, g: bv8, c: Child)
    ensures var cs := Copies(a.aceType, a.body, g, c);
      && |cs| <= 2
      && forall i :: 0 <= i < |cs| ==>
        cs[i].flags == g & !ALL_INHERIT_FLAGS || cs[i].flags == g || cs[i].flags == g | INHERIT_ONLY
  {
    hide Resolve, Resolvable, Has;
  }

  /** Exactly one copy goes on, when any does. */
  lemma CopyGoesOn(a: Ace, g: bv8, c: Child)
    requires Has(g, OBJECT_INHERIT | CONTAINER_INHERIT)
    ensures var cs := Copies(a.aceType, a.body, g, c);
      || cs == [Ace(a.aceType, g, a.body)]
      || cs == [Ace(a.aceType, g | INHERIT_ONLY, a.body)]
      || (|cs| == 2 && cs[0].flags == g & !ALL_INHERIT_FLAGS && cs[1] == Ace(a.aceType, g | INHERIT_ONLY, a.body))
  {
    hide Resolve, Resolvable, Has;
  }

  lemma NonPropagatingStops(a: Ace, c: Child, child: Child)
    requires Aligned(a) && c.container && Has(a.flags, NO_PROPAGATE)
    ensures InheritAll(PadAll(InheritAce(a, c)), child) == []
  {
    var g := CopyFlags(a.flags, true);
    FlagsStop(a.flags, child.container);
    FlagsStop(g, child.container);
    StoppedFlags(a.flags, child.container);
    hide Copies, CopyFlags, Reaches, Has, Padded;
    var cs := InheritAce(a, c);
    FlagsOfCopies(a, g, c);
    forall i | 0 <= i < |cs| ensures InheritAce(Padded(cs[i]), child) == [] {
      assert !Reaches(cs[i].flags, child.container) by {
        FlagsStop(g, child.container);
      }
      StopsHere(cs[i], child);
    }
    OneOrTwo(cs, child);
  }

  lemma StoppedFlags(f: bv8, container: bool)
    requires Has(f, NO_PROPAGATE)
    ensures !Reaches(CopyFlags(f, true) | INHERIT_ONLY, container)
  {
  }

  /** A copy that goes on is inherited as the original is. */
  lemma CopyInherited(a: Ace, g: bv8, child: Child)
    requires Aligned(a)
    requires Reaches(g, child.container) <==> Reaches(a.flags, child.container)
    requires CopyFlags(g, child.container) == CopyFlags(a.flags, child.container)
    ensures InheritAce(Padded(Ace(a.aceType, g, a.body)), child) == InheritAce(a, child)
  {
    hide InheritAce, Reaches, CopyFlags, Padded;
    SameInheritance(a, g, child);
    assert Aligned(Ace(a.aceType, g, a.body));
  }

  /** One ACE, through one container, to any child: as from the original, unless it does not propagate. */
  lemma AceComposes(a: Ace, c: Child, child: Child)
    requires Aligned(a) && c.container
    ensures InheritAll(PadAll(InheritAce(a, c)), child) ==
      if Has(a.flags, NO_PROPAGATE) then [] else InheritAce(a, child)
  {
    FlagsStop(a.flags, child.container);
    if Has(a.flags, NO_PROPAGATE) {
      NonPropagatingStops(a, c, child);
    } else if Reaches(a.flags, true) {
      PropagatingComposes(a, c, child);
    }
  }

  lemma CopiesOf(a: Ace, c: Child)
    requires c.container && Reaches(a.flags, true)
    ensures InheritAce(a, c) == Copies(a.aceType, a.body, CopyFlags(a.flags, true), c)
  {
    hide Copies, CopyFlags, Reaches, Has;
  }

  /** A copy that goes on, alone or after one that stops, is inherited as the original. */
  lemma CopiesInherited(a: Ace, g: bv8, h: bv8, stop: bv8, cs: seq<Ace>, child: Child)
    requires
      || cs == [Ace(a.aceType, g, a.body)] || cs == [Ace(a.aceType, h, a.body)]
      || (|cs| == 2 && cs[0].flags == stop && cs[1] == Ace(a.aceType, h, a.body))
    requires InheritAce(Padded(Ace(a.aceType, g, a.body)), child) == InheritAce(a, child)
    requires InheritAce(Padded(Ace(a.aceType, h, a.body)), child) == InheritAce(a, child)
    requires !Reaches(stop, child.container)
    ensures InheritAll(PadAll(cs), child) == InheritAce(a, child)
  {
    hide Reaches, InheritAce, Padded, InheritAll, PadAll;
    OneOrTwo(cs, child);
    if |cs| == 2 {
      StopsHere(cs[0], child);
    }
  }

  lemma PropagatingComposes(a: Ace, c: Child, child: Child)
    requires Aligned(a) && c.container && !Has(a.flags, NO_PROPAGATE) && Reaches(a.flags, true)
    ensures InheritAll(PadAll(InheritAce(a, c)), child) == InheritAce(a, child)
  {
    hide Copies, CopyFlags, Reaches, Has, InheritAce, Padded, InheritAll, Aligned, PadAll;
    var g := CopyFlags(a.flags, true);
    var h, stop := g | INHERIT_ONLY, g & !ALL_INHERIT_FLAGS;
    CopiesOf(a, c);
    FlagsCompose(a.flags, child.container);
    FlagsStop(g, child.container);
    CopyGoesOn(a, g, c);
    CopyInherited(a, g, child);
    CopyInherited(a, h, child);
    CopiesInherited(a, g, h, stop, InheritAce(a, c), child);
  }

  lemma OneOrTwo(aces: seq<Ace>, child: Child)
    requires |aces| <= 2
    ensures InheritAll(PadAll(aces), child) ==
      (if |aces| > 0 then InheritAce(Padded(aces[0]), child) else [])
      + (if |aces| > 1 then InheritAce(Padded(aces[1]), child) else [])
  {
    hide InheritAce;
    var p := PadAll(aces);
    if |aces| > 1 {
      assert p[1..][1..] == [];
      assert InheritAll(p[1..], child) == InheritAce(p[1], child) + [];
    }
  }

  lemma {:induction false} InheritAppend(a: seq<Ace>, b: seq<Ace>, child: Child)
    ensures InheritAll(a + b, child) == InheritAll(a, child) + InheritAll(b, child)
    decreases |a|
  {
    hide InheritAce;
    if a == [] {
      assert a + b == b;
    } else {
      InheritAppend(a[1..], b, child);
      assert (a + b)[1..] == a[1..] + b;
    }
  }

  lemma PadAppend(a: seq<Ace>, b: seq<Ace>)
    ensures PadAll(a + b) == PadAll(a) + PadAll(b)
  {
  }

  /** A whole list through one container. */
  lemma {:induction false} PassComposes(aces: seq<Ace>, c: Child, child: Child)
    requires AllAligned(aces) && c.container
    ensures InheritAll(Pass(aces, c), child) == InheritAll(Propagating(aces), child)
    decreases |aces|
  {
    hide InheritAce, Has, Aligned;
    if aces != [] {
      var first, later := InheritAce(aces[0], c), InheritAll(aces[1..], c);
      AceComposes(aces[0], c, child);
      PassComposes(aces[1..], c, child);
      PadAppend(first, later);
      InheritAppend(PadAll(first), PadAll(later), child);
      InheritAppend(if Has(aces[0].flags, NO_PROPAGATE) then [] else [aces[0]], Propagating(aces[1..]), child);
      assert InheritAll([aces[0]], child) == InheritAce(aces[0], child) + [];
    }
  }

  lemma NoCopyIsStopped(a: Ace, child: Child)
    ensures forall i :: 0 <= i < |InheritAce(a, child)| ==> !Has(InheritAce(a, child)[i].flags, NO_PROPAGATE)
  {
    hide Resolve, Resolvable;
    var f := CopyFlags(a.flags, child.container);
    assert !Has(f, NO_PROPAGATE) && !Has(f & !ALL_INHERIT_FLAGS, NO_PROPAGATE) && !Has(f | INHERIT_ONLY, NO_PROPAGATE);
  }

  lemma {:induction false} PassedPropagate(aces: seq<Ace>, c: Child)
    ensures forall i :: 0 <= i < |InheritAll(aces, c)| ==> !Has(InheritAll(aces, c)[i].flags, NO_PROPAGATE)
    decreases |aces|
  {
    hide InheritAce, Has;
    if aces != [] {
      NoCopyIsStopped(aces[0], c);
      PassedPropagate(aces[1..], c);
    }
  }

  lemma {:induction false} PropagatingAll(aces: seq<Ace>)
    requires forall i :: 0 <= i < |aces| ==> !Has(aces[i].flags, NO_PROPAGATE)
    ensures Propagating(aces) == aces
    decreases |aces|
  {
    hide Has;
    if aces != [] {
      PropagatingAll(aces[1..]);
      assert aces == [aces[0]] + aces[1..];
    }
  }

  lemma PassAligned(aces: seq<Ace>, c: Child)
    ensures AllAligned(Pass(aces, c)) && Propagating(Pass(aces, c)) == Pass(aces, c)
  {
    hide InheritAll, Has, Pass, PadAll, Propagating;
    PassedPropagate(aces, c);
    var all := InheritAll(aces, c);
    PadAligns(all);
    assert Pass(aces, c) == PadAll(all) by { PassIs(aces, c); }
    PropagatingAll(PadAll(all));
  }

  lemma PassIs(aces: seq<Ace>, c: Child)
    ensures Pass(aces, c) == PadAll(InheritAll(aces, c))
  {
  }

  lemma {:induction false} PadAligns(aces: seq<Ace>)
    ensures |PadAll(aces)| == |aces| && AllAligned(PadAll(aces))
    ensures forall i :: 0 <= i < |aces| ==> PadAll(aces)[i].flags == aces[i].flags
  {
    forall i | 0 <= i < |aces| ensures Aligned(PadAll(aces)[i]) && PadAll(aces)[i].flags == aces[i].flags {
      assert PadAll(aces)[i] == Padded(aces[i]);
    }
  }

  /**
   * Inheritance composes: down any non-empty chain of containers, whatever their owners, groups and
   * mappings, any child gets what it would inherit directly from the ACEs without NO_PROPAGATE.
   */
  lemma {:induction false} InheritanceComposes(aces: seq<Ace>, chain: seq<Child>, child: Child)
    requires AllAligned(aces) && chain != [] && AllContainers(chain)
    ensures InheritAll(PassDown(aces, chain), child) == InheritAll(Propagating(aces), child)
    decreases |chain|
  {
    hide InheritAll, Propagating, Pass, AllAligned;
    PassComposes(aces, chain[0], child);
    if |chain| > 1 {
      PassAligned(aces, chain[0]);
      InheritanceComposes(Pass(aces, chain[0]), chain[1..], child);
    } else {
      assert PassDown(aces, chain) == PassDown(Pass(aces, chain[0]), []);
    }
  }

  // ---- inheritance on bytes ----

  /** Building a level's list and parsing it again gives `Pass`. */
  lemma PassIsOnTheWire(aces: seq<Ace>, child: Child)
    requires AclFits(InheritAll(aces, child))
    ensures ReadsAs(BuildAcl(InheritAll(aces, child)).value, Pass(aces, child))
  {
    hide InheritAll, BuildAcl, IterAces, ParseAcl, PadAll;
    var out := BuildAcl(InheritAll(aces, child)).value;
    AclRoundTrip(InheritAll(aces, child), []);
    assert out + [] == out;
  }

  /** The bytes are a list of exactly these ACEs. */
  predicate ReadsAs(bytes: seq<byte>, aces: seq<Ace>) {
    && ParseAcl(bytes).Some? && |ParseAcl(bytes).value.bytes| >= 8
    && AcesOf(ParseAcl(bytes).value) == AceList(aces, true)
  }

  /** One level on bytes: parse the parent's list, inherit, and build the child's; nothing if it is too long. */
  function Level(bytes: seq<byte>, child: Child): Option<seq<byte>> {
    match ParseAcl(bytes)
    case None => None
    case Some(acl) => if |acl.bytes| < 8 then None else BuildAcl(InheritAll(AcesOf(acl).aces, child))
  }

  function Levels(bytes: seq<byte>, chain: seq<Child>): Option<seq<byte>>
    decreases |chain|
  {
    if chain == [] then Some(bytes)
    else match Level(bytes, chain[0]) case None => None case Some(next) => Levels(next, chain[1..])
  }

  lemma {:induction false} LevelsRead(bytes: seq<byte>, aces: seq<Ace>, chain: seq<Child>)
    requires ReadsAs(bytes, aces) && Levels(bytes, chain).Some?
    ensures ReadsAs(Levels(bytes, chain).value, PassDown(aces, chain))
    decreases |chain|
  {
    hide InheritAll, BuildAcl, IterAces, ParseAcl, Pass;
    if chain != [] {
      var next := Level(bytes, chain[0]).value;
      PassIsOnTheWire(aces, chain[0]);
      LevelsRead(next, Pass(aces, chain[0]), chain[1..]);
    }
  }

  /**
   * The same on bytes, wherever every level fits its size field: the list a child gets at the end of
   * a chain of containers is byte for byte the one it would get directly from the ACEs without
   * NO_PROPAGATE.
   */
  lemma ChainOnBytes(bytes: seq<byte>, aces: seq<Ace>, chain: seq<Child>, child: Child)
    requires ReadsAs(bytes, aces) && AllAligned(aces) && chain != [] && AllContainers(chain)
    requires Levels(bytes, chain).Some?
    ensures Level(Levels(bytes, chain).value, child) == BuildAcl(InheritAll(Propagating(aces), child))
  {
    hide InheritAll, BuildAcl, IterAces, ParseAcl, Levels, PassDown, Propagating, AllAligned;
    LevelsRead(bytes, aces, chain);
    InheritanceComposes(aces, chain, child);
  }
}
