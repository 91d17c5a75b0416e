/** SID, ACL and descriptor builders and iterators as they run: loops that push bytes, and a backfilled header. */
module DescriptorBuilders {
  import opened Bytes
  import opened SidWire
  import opened SecurityDescriptor

  // ---- SIDs ----

  /** `Sid::encode`. */
  method EncodeSidBytes(s: Sid) returns (out: seq<byte>)
    ensures out == EncodeSid(s)
  {
    hide ToLE, ToBE;
    out := [s.revision, |s.subs| % 256] + ToBE(s.authority, 6);
    ghost var head := out;
    var i := 0;
    while i < |s.subs|
      invariant i <= |s.subs|
      invariant out + SubBytes(s.subs[i..]) == head + SubBytes(s.subs)
    {
      assert s.subs[i..][1..] == s.subs[i + 1..];
      out := out + ToLE(s.subs[i], 4);
      i := i + 1;
    }
    assert s.subs[i..] == [];
  }

  /** `SidRef::parse` and `to_owned`: the authority is shifted in a byte at a time. */
  method ParseSidBytes(bytes: seq<byte>) returns (r: SidAt)
    ensures r == ParseSid(bytes)
  {
    hide FromLE;
    if |bytes| < 8 {
      return NoSid;
    }
    var count: int := bytes[1];
    var need := 8 + 4 * count;
    if |bytes| < need {
      return NoSid;
    }
    var authority, i := 0, 2;
    while i < 8
      invariant 2 <= i <= 8 && authority == FromBE(bytes[2..i])
    {
      assert bytes[2..i + 1][..i - 2] == bytes[2..i];
      var b: int := bytes[i];
      authority := 256 * authority + b;
      i := i + 1;
    }
    var subs := SubAuthorities(bytes[8..need]);
    return SidAt(Sid(bytes[0], authority, subs), need);
  }

  /** `SubAuthorityIter`, run to its end. */
  method SubAuthorities(bytes: seq<byte>) returns (subs: seq<nat>)
    ensures subs == SubsOf(bytes)
  {
    hide FromLE;
    subs := [];
    var rest := bytes;
    while |rest| >= 4
      invariant subs + SubsOf(rest) == SubsOf(bytes)
      decreases |rest|
    {
      subs := subs + [FromLE(rest[..4])];
      rest := rest[4..];
    }
  }

  // ---- lists ----

  /** `AclBuilder::build`. */
  method BuildAclBytes(aces: seq<Ace>) returns (r: Option<seq<byte>>)
    ensures r == BuildAcl(aces)
  {
    hide ToLE, BuildAce, AclRevision;
    if |aces| > U16_MAX {
      return None;
    }
    var total := AclLen(aces);
    if total > U16_MAX {
      return None;
    }
    var out := [AclRevision(aces), 0] + ToLE(total, 2) + ToLE(|aces|, 2) + [0, 0];
    ghost var head := out;
    var i := 0;
    while i < |aces|
      invariant i <= |aces|
      invariant out + BuildAces(aces[i..]) == head + BuildAces(aces)
    {
      assert aces[i..][1..] == aces[i + 1..];
      out := out + BuildAce(aces[i]);
      i := i + 1;
    }
    assert aces[i..] == [] && out + [] == out;
    assert head + BuildAces(aces) == BuildAcl(aces).value;
    return Some(out);
  }

  /** The summed wire size. */
  method AclLen(aces: seq<Ace>) returns (n: nat)
    ensures n == 8 + |BuildAces(aces)|
  {
    hide BuildAce;
    n := 8;
    var i := 0;
    while i < |aces|
      invariant i <= |aces|
      invariant n + |BuildAces(aces[i..])| == 8 + |BuildAces(aces)|
    {
      assert aces[i..][1..] == aces[i + 1..];
      n := n + AceLen(aces[i]);
      i := i + 1;
    }
  }

  /** What one step of the iterator gives. */
  datatype Item = End | Bad | Good(ace: Ace)

  /** `AceIter`: the bytes left and the ACEs still expected. */
  class AceIter {
    var bytes: seq<byte>
    var remaining: nat

    constructor (acl: Acl)
      requires |acl.bytes| >= 8
      ensures Left() == AcesOf(acl)
    {
      bytes, remaining := acl.bytes[8..], acl.aceCount;
    }

    /** Everything the iterator has still to give. */
    ghost function Left(): AceList
      reads this
    {
      IterAces(bytes, remaining)
    }

    /** `next`: after a malformed ACE it gives nothing more. */
    method Next() returns (item: Item)
      modifies this
      ensures match item
        case End => old(Left()) == AceList([], true) && remaining == old(remaining) && bytes == old(bytes)
        case Bad => old(Left()) == AceList([], false) && remaining == 0
        case Good(a) => old(Left()) == AceList([a] + Left().aces, Left().ok) && remaining == old(remaining) - 1
    {
      if remaining == 0 {
        return End;
      }
      if |bytes| < 4 {
        remaining := 0;
        return Bad;
      }
      var size := FromLE(bytes[2..4]);
      if size < 4 || |bytes| < size {
        remaining := 0;
        return Bad;
      }
      var flags: int := bytes[1];
      item := Good(Ace(bytes[0], flags as bv8, bytes[4..size]));
      bytes := bytes[size..];
      remaining := remaining - 1;
    }
  }

  /** Drives the iterator to its end, as every walk of a list does. */
  method CollectAces(acl: Acl) returns (r: AceList)
    requires |acl.bytes| >= 8
    ensures r == AcesOf(acl)
  {
    hide IterAces;
    var it := new AceIter(acl);
    var aces := [];
    while true
      invariant AcesOf(acl) == AceList(aces + it.Left().aces, it.Left().ok)
      decreases it.remaining
    {
      var item := it.Next();
      match item
      case End => return AceList(aces, true);
      case Bad => return AceList(aces, false);
      case Good(a) => aces := aces + [a];
    }
  }

  // ---- descriptors ----

  lemma OverwriteFront(done: seq<byte>, was: seq<byte>, data: seq<byte>, rest: seq<byte>)
    requires |was| == |data|
    ensures Overwrite(done + (was + rest), |done|, data) == (done + data) + rest
  {
  }

  method AppendSid(body: seq<byte>, s: Option<Sid>) returns (out: seq<byte>, off: nat)
    ensures out == body + Part(SidPart(s)) && off == Off(SidPart(s), SD_HEADER + |body|)
  {
    hide EncodeSid;
    out, off := body, 0;
    if s.Some? {
      off := SD_HEADER + |body|;
      var part := EncodeSidBytes(s.value);
      out := body + part;
    }
  }

  method AppendAcl(body: seq<byte>, aces: Option<seq<Ace>>) returns (ok: bool, out: seq<byte>, off: nat)
    ensures ok <==> (aces.Some? ==> AclFits(aces.value))
    ensures ok ==> out == body + Part(AclPart(aces)) && off == Off(AclPart(aces), SD_HEADER + |body|)
  {
    hide BuildAcl;
    ok, out, off := true, body, 0;
    if aces.Some? {
      off := SD_HEADER + |body|;
      var part := BuildAclBytes(aces.value);
      if part.None? {
        ok := false;
      } else {
        out := body + part.value;
      }
    }
  }

  /** `SdBuilder::build`: the parts in turn after a blank header, which is filled in last. */
  method BuildSdBytes(p: SdParts) returns (r: Option<seq<byte>>)
    ensures r == BuildSd(p)
  {
    hide SdHeader, Part, SidPart, AclPart, AclFits, ControlOf, Off;
    var control := ControlOf(p);
    var body, ownerOff := AppendSid([], p.owner);
    var groupOff;
    body, groupOff := AppendSid(body, p.group);
    var ok, saclOff, daclOff;
    ok, body, saclOff := AppendAcl(body, p.sacl);
    if !ok {
      return None;
    }
    ok, body, daclOff := AppendAcl(body, p.dacl);
    if !ok {
      return None;
    }
    assert [] + Part(SidPart(p.owner)) == Part(SidPart(p.owner));
    Regroup(Part(SidPart(p.owner)), Part(SidPart(p.group)), Part(AclPart(p.sacl)), Part(AclPart(p.dacl)));
    var buf := FillHeader(Zeros(SD_HEADER) + body, body, 1, 0, control, ownerOff, groupOff, saclOff, daclOff);
    return Some(buf);
  }

  lemma Regroup(a: seq<byte>, b: seq<byte>, c: seq<byte>, d: seq<byte>)
    ensures a + b + c + d == a + (b + (c + d))
  {
  }

  method FillHeader(blank: seq<byte>, ghost body: seq<byte>, revision: byte, sbz1: byte, control: bv16, owner: nat, group: nat, sacl: nat, dacl: nat)
    returns (buf: seq<byte>)
    requires blank == Zeros(SD_HEADER) + body
    ensures buf == SdHeader(revision, sbz1, control, owner, group, sacl, dacl) + body
  {
    hide ToLE, Overwrite;
    BlankHeader(body);
    ghost var z4 := Zeros(4) + body;
    ghost var z3 := Zeros(4) + z4;
    ghost var z2 := Zeros(4) + z3;
    ghost var z1 := Zeros(4) + z2;
    var first := [revision, sbz1];
    var c, o, g, s, d := ToLE(control as int, 2), ToLE(owner, 4), ToLE(group, 4), ToLE(sacl, 4), ToLE(dacl, 4);
    buf := Overwrite(blank, 0, first);
    OverwriteFront([], Zeros(2), first, Zeros(2) + z1);
    assert [] + (Zeros(2) + (Zeros(2) + z1)) == blank && [] + first == first;
    buf := Overwrite(buf, 2, c);
    OverwriteFront(first, Zeros(2), c, z1);
    buf := Overwrite(buf, 4, o);
    OverwriteFront(first + c, Zeros(4), o, z2);
    buf := Overwrite(buf, 8, g);
    OverwriteFront(first + c + o, Zeros(4), g, z3);
    buf := Overwrite(buf, 12, s);
    OverwriteFront(first + c + o + g, Zeros(4), s, z4);
    buf := Overwrite(buf, 16, d);
    OverwriteFront(first + c + o + g + s, Zeros(4), d, body);
  }

  lemma BlankHeader(body: seq<byte>)
    ensures Zeros(SD_HEADER) + body
      == Zeros(2) + (Zeros(2) + (Zeros(4) + (Zeros(4) + (Zeros(4) + (Zeros(4) + body)))))
  {
  }
}
