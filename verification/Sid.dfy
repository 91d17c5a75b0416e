/** Security identifiers on the wire (section 2.4.2.2 of MS-DTYP). */
module SidWire {
  import opened Bytes

  /** `authority` is a `u64` of which the wire carries 48 bits; `subs` are `u32`s. */
  datatype Sid = Sid(revision: byte, authority: nat, subs: seq<nat>)

  /** Every field is in the range of its Rust type. */
  predicate TypedSid(s: Sid) {
    s.authority < Pow256(8) && forall i :: 0 <= i < |s.subs| ==> s.subs[i] < Pow256(4)
  }

  /** The SIDs the layout can express: a 48-bit authority and at most 255 sub-authorities. */
  predicate CanonicalSid(s: Sid) {
    s.authority < Pow256(6) && |s.subs| <= 255
  }

  function SubBytes(subs: seq<nat>): (b: seq<byte>)
    ensures |b| == 4 * |subs|
  {
    if subs == [] then [] else ToLE(subs[0], 4) + SubBytes(subs[1..])
  }

  /** `Sid::encode`: the count is cut to a byte and the authority to its low 48 bits. */
  function EncodeSid(s: Sid): (b: seq<byte>)
    ensures |b| == 8 + 4 * |s.subs|
  {
    [s.revision, |s.subs| % 256] + ToBE(s.authority, 6) + SubBytes(s.subs)
  }

  function SubsOf(b: seq<byte>): (subs: seq<nat>)
    ensures |subs| == |b| / 4
  {
    if |b| < 4 then [] else [FromLE(b[..4])] + SubsOf(b[4..])
  }

  datatype SidAt = NoSid | SidAt(sid: Sid, used: nat)

  /** `SidRef::parse` and `to_owned`: the SID at the front of `bytes` and the bytes it takes. */
  function ParseSid(bytes: seq<byte>): (r: SidAt)
    ensures r.SidAt? ==> 8 <= r.used <= |bytes| && r.used == 8 + 4 * |r.sid.subs|
  {
    if |bytes| < 8 then NoSid else
    var count: int := bytes[1];
    var need := 8 + 4 * count;
    if |bytes| < need then NoSid
    else SidAt(Sid(bytes[0], FromBE(bytes[2..8]), SubsOf(bytes[8..need])), need)
  }

  /** What is left of a SID after a trip through the wire. */
  function Truncated(s: Sid): Sid {
    Sid(s.revision, s.authority % Pow256(6), s.subs[..|s.subs| % 256])
  }

  lemma {:induction false} SubsRoundTrip(subs: seq<nat>, k: nat, rest: seq<byte>)
    requires k <= |subs| && forall i :: 0 <= i < |subs| ==> subs[i] < Pow256(4)
    ensures SubsOf((SubBytes(subs) + rest)[..4 * k]) == subs[..k]
    decreases k
  {
    if k > 0 {
      var all := SubBytes(subs) + rest;
      SubsRoundTrip(subs[1..], k - 1, rest);
      LeRoundTrip(subs[0], 4);
      assert all[..4 * k][..4] == ToLE(subs[0], 4);
      assert all[..4 * k][4..] == (SubBytes(subs[1..]) + rest)[..4 * (k - 1)];
      assert subs[..k] == [subs[0]] + subs[1..][..k - 1];
    }
  }

  lemma {:induction false} ToBELow(n: nat, k: nat)
    ensures ToBE(n, k) == ToBE(n % Pow256(k), k)
  {
    if k > 0 {
      var p := Pow256(k - 1);
      var low := n % Pow256(k);
      ModSplit(n, p);
      assert low / 256 == (n / 256) % p && low % 256 == n % 256;
      ToBELow(n / 256, k - 1);
    }
  }

  lemma ModSplit(n: nat, p: nat)
    requires p > 0
    ensures n % (256 * p) == 256 * ((n / 256) % p) + n % 256
  {
    var q, r := n / 256 / p, (n / 256) % p;
    assert n / 256 == p * q + r;
    assert n == (256 * p) * q + (256 * r + n % 256);
    ModuloUnique(n, 256 * p, q, 256 * r + n % 256);
  }

  /** Parsing what was encoded, whatever follows it. */
  lemma SidThroughWire(s: Sid, rest: seq<byte>)
    requires TypedSid(s)
    ensures ParseSid(EncodeSid(s) + rest) == SidAt(Truncated(s), 8 + 4 * (|s.subs| % 256))
  {
    hide FromBE, ToBE, SubBytes, SubsOf, Pow256;
    var b, n := EncodeSid(s) + rest, |s.subs| % 256;
    var need := 8 + 4 * n;
    assert b[2..8] == ToBE(s.authority, 6);
    ToBELow(s.authority, 6);
    BeRoundTrip(s.authority % Pow256(6), 6);
    assert b[8..need] == (SubBytes(s.subs) + rest)[..4 * n];
    SubsRoundTrip(s.subs, n, rest);
  }

  /** The round trip is exact precisely on the SIDs the layout can express. */
  lemma SidRoundTripExact(s: Sid, rest: seq<byte>)
    requires TypedSid(s)
    ensures ParseSid(EncodeSid(s) + rest) == SidAt(s, |EncodeSid(s)|) <==> CanonicalSid(s)
  {
    SidThroughWire(s, rest);
  }

  lemma {:induction false} SubsInverse(b: seq<byte>)
    requires |b| % 4 == 0
    ensures SubBytes(SubsOf(b)) == b
    ensures forall i :: 0 <= i < |SubsOf(b)| ==> SubsOf(b)[i] < Pow256(4)
  {
    if b != [] {
      SubsInverse(b[4..]);
      LeInverse(b[..4]);
      assert SubsOf(b)[1..] == SubsOf(b[4..]);
      assert b == b[..4] + b[4..];
    }
  }

  /** What is parsed is canonical, and encodes to exactly the bytes it came from. */
  lemma ParsedSidEncodes(bytes: seq<byte>)
    requires ParseSid(bytes).SidAt?
    ensures var r := ParseSid(bytes);
      TypedSid(r.sid) && CanonicalSid(r.sid) && EncodeSid(r.sid) == bytes[..r.used]
  {
    var r := ParseSid(bytes);
    BeInverse(bytes[2..8]);
    SubsInverse(bytes[8..r.used]);
    PowValues();
    assert bytes[..r.used] == [bytes[0], bytes[1]] + bytes[2..8] + bytes[8..r.used];
  }

  /** Parsing gives a SID exactly where that SID's bytes stand. */
  lemma ParseSidExact(bytes: seq<byte>, s: Sid, used: nat)
    ensures ParseSid(bytes) == SidAt(s, used) <==>
      TypedSid(s) && CanonicalSid(s) && EncodeSid(s) <= bytes && used == |EncodeSid(s)|
  {
    hide ParseSid, EncodeSid, TypedSid, CanonicalSid;
    if ParseSid(bytes) == SidAt(s, used) {
      ParsedSidEncodes(bytes);
    } else if TypedSid(s) && CanonicalSid(s) && EncodeSid(s) <= bytes {
      var rest := bytes[|EncodeSid(s)|..];
      assert bytes == EncodeSid(s) + rest;
      SidRoundTripExact(s, rest);
    }
  }
}
