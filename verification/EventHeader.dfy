/** One KMES event on the wire: its layout, its parser, and the double-mapped ring window it is read through. */
module EventHeader {
  import opened Bytes

  const HEADER_BASE := 77
  const META_TOTAL := 8192

  /** An event as its producer means it. */
  datatype Event = Event(
    timestamp: nat, sequence: nat, cpuId: nat, originClass: byte,
    effGuid: seq<byte>, trueGuid: seq<byte>, procGuid: seq<byte>,
    eventType: seq<byte>, payload: seq<byte>)

  /** The decoded fields, with type and payload as offsets from the event start. */
  datatype EventFields = EventFields(
    eventSize: nat, timestamp: nat, sequence: nat, cpuId: nat, originClass: byte,
    effGuid: seq<byte>, trueGuid: seq<byte>, procGuid: seq<byte>,
    typeOff: nat, typeLen: nat, payloadOff: nat, payloadLen: nat)

  function Size(e: Event): (n: nat)
    ensures n >= HEADER_BASE
  {
    HEADER_BASE + |e.eventType| + |e.payload|
  }

  /** What a producer may put in a ring of `capacity` bytes. */
  predicate ValidEvent(e: Event, capacity: nat) {
    && e.timestamp < Pow256(8) && e.sequence < Pow256(8) && e.cpuId < Pow256(2)
    && |e.effGuid| == 16 && |e.trueGuid| == 16 && |e.procGuid| == 16
    && |e.eventType| < Pow256(2)
    && Size(e) < Pow256(4) && Size(e) <= capacity
  }

  /** The 77 fixed header bytes. */
  function Header(e: Event): (h: seq<byte>)
    requires |e.effGuid| == 16 && |e.trueGuid| == 16 && |e.procGuid| == 16
    ensures |h| == HEADER_BASE
  {
    ToLE(Size(e), 4) + ToLE(HEADER_BASE + |e.eventType|, 4)
    + ToLE(e.timestamp, 8) + ToLE(e.sequence, 8) + ToLE(e.cpuId, 2) + [e.originClass]
    + e.effGuid + e.trueGuid + e.procGuid + ToLE(|e.eventType|, 2)
  }

  function EncodeEvent(e: Event): (s: seq<byte>)
    requires |e.effGuid| == 16 && |e.trueGuid| == 16 && |e.procGuid| == 16
    ensures |s| == Size(e)
  {
    Header(e) + e.eventType + e.payload
  }

  function FieldsOf(e: Event): EventFields {
    EventFields(Size(e), e.timestamp, e.sequence, e.cpuId, e.originClass,
                e.effGuid, e.trueGuid, e.procGuid,
                HEADER_BASE, |e.eventType|, HEADER_BASE + |e.eventType|, |e.payload|)
  }

  /** The corruption guards on the two sizes, which need only the first eight bytes. */
  predicate SizesOk(eventSize: nat, headerSize: nat, capacity: nat) {
    eventSize != 0 && eventSize <= capacity && HEADER_BASE <= headerSize <= eventSize
  }

  /**
   * The body of `parse_event` once 77 bytes are known to be readable: `h` is those bytes and
   * `avail` the length of the window they start.
   */
  function ParseHeader(h: seq<byte>, avail: nat, capacity: nat): (r: Option<EventFields>)
    requires |h| == HEADER_BASE
    ensures r.Some? ==> Tiles(r.value, avail, capacity)
  {
    var eventSize := FromLE(h[0..4]);
    var headerSize := FromLE(h[4..8]);
    var typeLen := FromLE(h[75..77]);
    if !SizesOk(eventSize, headerSize, capacity) then None
    else if headerSize != HEADER_BASE + typeLen then None
    else if eventSize > avail then None
    else Some(EventFields(eventSize, FromLE(h[8..16]), FromLE(h[16..24]), FromLE(h[24..26]), h[26],
                          h[27..43], h[43..59], h[59..75],
                          HEADER_BASE, typeLen, headerSize, eventSize - headerSize))
  }

  function ParseEvent(w: seq<byte>, capacity: nat): (r: Option<EventFields>)
    ensures r.Some? ==> Tiles(r.value, |w|, capacity)
  {
    if |w| < HEADER_BASE then None else ParseHeader(w[..HEADER_BASE], |w|, capacity)
  }

  /** Type then payload fill the event after its fixed header exactly, inside the window and the ring. */
  predicate Tiles(f: EventFields, avail: nat, capacity: nat) {
    && f.typeOff == HEADER_BASE
    && f.payloadOff == f.typeOff + f.typeLen
    && f.eventSize == f.payloadOff + f.payloadLen
    && f.eventSize <= avail && f.eventSize <= capacity
  }

  lemma HeaderSlices(e: Event)
    requires |e.effGuid| == 16 && |e.trueGuid| == 16 && |e.procGuid| == 16
    ensures var h := Header(e);
      && h[0..4] == ToLE(Size(e), 4) && h[4..8] == ToLE(HEADER_BASE + |e.eventType|, 4)
      && h[8..16] == ToLE(e.timestamp, 8) && h[16..24] == ToLE(e.sequence, 8)
      && h[24..26] == ToLE(e.cpuId, 2) && h[26] == e.originClass
      && h[27..43] == e.effGuid && h[43..59] == e.trueGuid && h[59..75] == e.procGuid
      && h[75..77] == ToLE(|e.eventType|, 2)
  {
    var a := ToLE(Size(e), 4) + ToLE(HEADER_BASE + |e.eventType|, 4);
    var b := ToLE(e.timestamp, 8) + ToLE(e.sequence, 8) + ToLE(e.cpuId, 2) + [e.originClass];
    var c := e.effGuid + e.trueGuid + e.procGuid + ToLE(|e.eventType|, 2);
    assert Header(e) == a + b + c;
    assert forall i | 0 <= i < 8 :: Header(e)[i] == a[i];
    assert forall i | 8 <= i < 27 :: Header(e)[i] == b[i - 8];
    assert forall i | 27 <= i < 77 :: Header(e)[i] == c[i - 27];
  }

  /** Whatever follows a well-formed event in the window, parsing gives back the event's own fields. */
  lemma HeaderRoundTrip(e: Event, avail: nat, capacity: nat)
    requires ValidEvent(e, capacity) && Size(e) <= avail
    ensures ParseHeader(Header(e), avail, capacity) == Some(FieldsOf(e))
  {
    HeaderSlices(e);
    PowValues();
    LeRoundTrip(Size(e), 4);
    LeRoundTrip(HEADER_BASE + |e.eventType|, 4);
    LeRoundTrip(e.timestamp, 8);
    LeRoundTrip(e.sequence, 8);
    LeRoundTrip(e.cpuId, 2);
    LeRoundTrip(|e.eventType|, 2);
  }

  lemma ParseRoundTrip(e: Event, rest: seq<byte>, capacity: nat)
    requires ValidEvent(e, capacity)
    ensures ParseEvent(EncodeEvent(e) + rest, capacity) == Some(FieldsOf(e))
    ensures var w := EncodeEvent(e) + rest; var f := FieldsOf(e);
      && w[f.typeOff..f.typeOff + f.typeLen] == e.eventType
      && w[f.payloadOff..f.payloadOff + f.payloadLen] == e.payload
  {
    hide Header, ParseHeader;
    var w := EncodeEvent(e) + rest;
    var h, t, p := Header(e), e.eventType, e.payload;
    assert w == h + (t + (p + rest));
    assert w[..HEADER_BASE] == h && w[|h|..|h| + |t|] == t && w[|h| + |t|..|h| + |t| + |p|] == p;
    HeaderRoundTrip(e, |w|, capacity);
  }

  // ---- the double mapping ----

  function Pow2(k: nat): (p: nat)
    ensures p >= 1
  {
    if k == 0 then 1 else 2 * Pow2(k - 1)
  }

  /** Bitwise AND of two naturals. */
  function BitAnd(a: nat, b: nat): nat {
    if a == 0 || b == 0 then 0 else (if a % 2 == 1 && b % 2 == 1 then 1 else 0) + 2 * BitAnd(a / 2, b / 2)
  }

  lemma Masks(x: nat, k: nat)
    ensures BitAnd(0, x) == BitAnd(x, 0) == 0
    ensures Pow2(0) == 1 && (k > 0 ==> Pow2(k) == 2 * Pow2(k - 1))
  {
  }

  lemma NoRemainder(x: nat, p: nat)
    requires p > 0
    ensures 0 % p == 0 && x % 1 == 0
  {
    ModuloUnique(0, p, 0, 0);
  }

  /** `position & (capacity - 1)` is the position modulo a power-of-two capacity. */
  lemma {:induction false} MaskIsModulo(x: nat, k: nat)
    ensures BitAnd(x, Pow2(k) - 1) == x % Pow2(k)
  {
    hide BitAnd, Pow2;
    Masks(x, k);
    Masks(Pow2(k) - 1, k);
    NoRemainder(x, Pow2(k));
    if x > 0 && k > 0 {
      var m := Pow2(k - 1);
      MaskIsModulo(x / 2, k - 1);
      HalveModulo(x, m);
      MaskLowBit(x, m);
    }
  }

  lemma MaskLowBit(x: nat, m: nat)
    requires m > 0 && x > 0
    ensures BitAnd(x, 2 * m - 1) == x % 2 + 2 * BitAnd(x / 2, m - 1)
  {
    var b := 2 * m - 1;
    assert b % 2 == 1 && b / 2 == m - 1;
  }

  lemma HalveModulo(x: nat, m: nat)
    requires m > 0
    ensures x % (2 * m) == x % 2 + 2 * ((x / 2) % m)
  {
    var q, r := x / 2 / m, (x / 2) % m;
    assert x / 2 == m * q + r;
    assert x == (2 * m) * q + (2 * r + x % 2);
    ModuloUnique(x, 2 * m, q, 2 * r + x % 2);
  }

  lemma ModuloShift(p: nat, i: nat, c: nat)
    requires c > 0
    ensures (p % c + i) % c == (p + i) % c
  {
    var q := (p % c + i) / c;
    assert p + i == c * (p / c + q) + (p % c + i) % c by {
      assert p == c * (p / c) + p % c;
      assert p % c + i == c * q + (p % c + i) % c;
    }
    ModuloUnique(p + i, c, p / c + q, (p % c + i) % c);
  }

  lemma ModuloApart(a: nat, b: nat, c: nat)
    requires c > 0 && a < b < a + c
    ensures a % c != b % c
  {
    var q, r := a / c, a % c;
    if r + (b - a) < c {
      ModuloUnique(b, c, q, r + (b - a));
    } else {
      assert b == c * (q + 1) + (r + (b - a) - c);
      ModuloUnique(b, c, q + 1, r + (b - a) - c);
    }
  }

  /** A mapped ring: `mapLen` bytes hold the metadata pages, then the data region twice over. */
  datatype Ring = Ring(base: nat, capacity: nat, mapLen: nat)

  /** `is_mapped`: every intermediate is checked against a `usize` of `usizeMax`. */
  ghost predicate IsMapped(r: Ring, usizeMax: nat) {
    && r.capacity <= usizeMax
    && 2 * r.capacity <= usizeMax
    && r.mapLen >= META_TOTAL
    && r.base != 0
    && r.capacity != 0
    && IsPowerOfTwo(r.capacity)
    && r.mapLen - META_TOTAL >= 2 * r.capacity
  }

  ghost predicate IsPowerOfTwo(n: nat) {
    exists k: nat :: Pow2(k) == n
  }

  /** Where `event_at` starts reading, as an offset into the data region. */
  function Offset(readPos: nat, capacity: nat): nat
    requires capacity > 0
  {
    BitAnd(readPos, capacity - 1)
  }

  /** `data` is the mapped region behind the metadata: the ring's bytes, twice, back to back. */
  predicate DoubleMapped(data: seq<byte>, mem: seq<byte>) {
    && |data| >= 2 * |mem|
    && forall j {:trigger data[j]} :: 0 <= j < 2 * |mem| ==> data[j] == mem[j % |mem|]
  }

  /** `event_at`, without the copy-out: the fields parsed from the window at `readPos`. */
  function EventAt(data: seq<byte>, capacity: nat, readPos: nat): (r: Option<EventFields>)
    requires capacity > 0 && Offset(readPos, capacity) <= |data|
  {
    ParseEvent(data[Offset(readPos, capacity)..], capacity)
  }

  /**
   * For every power-of-two capacity and free-running position, the window starts inside the first
   * copy, its first `capacity` bytes are the ring's bytes taken modulo the capacity, and every
   * event parsed from it lies inside the mapping with its type and payload tiling it.
   */
  lemma WindowReadsRing(r: Ring, usizeMax: nat, data: seq<byte>, mem: seq<byte>, readPos: nat)
    requires IsMapped(r, usizeMax) && |mem| == r.capacity
    requires |data| == r.mapLen - META_TOTAL && DoubleMapped(data, mem)
    ensures Offset(readPos, r.capacity) == readPos % r.capacity < r.capacity
    ensures forall i {:trigger data[Offset(readPos, r.capacity)..][i]} :: 0 <= i < r.capacity ==>
      data[Offset(readPos, r.capacity)..][i] == mem[(readPos + i) % r.capacity]
    ensures var f := EventAt(data, r.capacity, readPos); f.Some? ==>
      && Tiles(f.value, |data| - Offset(readPos, r.capacity), r.capacity)
      && Offset(readPos, r.capacity) + f.value.eventSize <= 2 * r.capacity <= r.mapLen - META_TOTAL
  {
    var c := r.capacity;
    var k: nat :| Pow2(k) == c;
    MaskIsModulo(readPos, k);
    var off := Offset(readPos, c);
    forall i | 0 <= i < c ensures data[off..][i] == mem[(readPos + i) % c] {
      assert data[off..][i] == data[off + i];
      ModuloShift(readPos, i, c);
    }
  }
}
