/**
 * The lock-free drain of one event ring: an abstract producer and the reader's individual loads,
 * interleaved one atomic step at a time, within one ring generation.
 */
module EventReader {
  import opened Bytes
  import opened EventHeader

  // ---- the producer ----

  /**
   * `mem` is the ring; `log` every event published so far, event `i` at positions
   * `starts[i]..starts[i + 1]`; the write position is the last of `starts` and the tail position
   * `starts[tailIdx]`. `reserved` is the event being written past the write position.
   */
  datatype Producer = Producer(
    cap: nat, mem: seq<byte>, log: seq<Event>, starts: seq<nat>, tailIdx: nat,
    reserved: Option<Event>, tailAdvances: nat)

  function WritePos(p: Producer): nat
    requires |p.starts| > 0
  {
    p.starts[|p.starts| - 1]
  }

  function Tail(p: Producer): nat
    requires p.tailIdx < |p.starts|
  {
    p.starts[p.tailIdx]
  }

  datatype ProducerStep =
    | Reserve(e: Event)               // choose the next event
    | AdvanceTail(to: nat)            // give up the oldest events
    | Scribble(i: nat, b: byte)       // store any byte anywhere in the reserved slot
    | Publish                         // release the finished event

  /** The reserved slot overwrites nothing at or after the tail. */
  predicate HasRoom(p: Producer)
    requires |p.starts| > 0 && p.tailIdx < |p.starts|
  {
    p.reserved.Some? && WritePos(p) + Size(p.reserved.value) <= Tail(p) + p.cap
  }

  predicate Enabled(p: Producer, step: ProducerStep)
    requires Shape(p)
  {
    match step
    case Reserve(e) =>
      && p.reserved.None? && ValidEvent(e, p.cap) && e.sequence > 0
      && (p.log != [] ==> p.log[|p.log| - 1].sequence < e.sequence)
      && WritePos(p) + Size(e) < Pow256(8)
    case AdvanceTail(to) => p.tailIdx < to <= |p.log|
    case Scribble(i, b) => HasRoom(p) && i < Size(p.reserved.value)
    case Publish =>
      && HasRoom(p)
      && var e := p.reserved.value;
      && ValidEvent(e, p.cap)
      && forall i {:trigger EncodeEvent(e)[i]} :: 0 <= i < Size(e) ==>
           p.mem[(WritePos(p) + i) % p.cap] == EncodeEvent(e)[i]
  }

  function Produce(p: Producer, step: ProducerStep): (p': Producer)
    requires Shape(p)
    ensures Shape(p')
  {
    if !Enabled(p, step) then p else
    match step
    case Reserve(e) => p.(reserved := Some(e))
    case AdvanceTail(to) => p.(tailIdx := to, tailAdvances := p.tailAdvances + 1)
    case Scribble(i, b) => p.(mem := p.mem[(WritePos(p) + i) % p.cap := b])
    case Publish =>
      var e := p.reserved.value;
      p.(log := p.log + [e], starts := p.starts + [WritePos(p) + Size(e)], reserved := None)
  }

  // ---- the reader ----

  datatype Outcome = Pending | Empty | Filled | CorruptSlot

  datatype Delivery = Delivery(pos: nat, fields: EventFields)

  /** Where `next` stands: each constructor is about to perform the one shared load it names. */
  datatype Pc =
    | Closed
    | OpenGeneration
    | Idle
    | LoadGeneration
    | LoadWritePos
    | LoadTailPos
    | LoadByte(saved: nat, got: seq<byte>)
    | ReloadTail(saved: nat, f: EventFields)
    | ReloadTailCorrupt

  datatype Reader = Reader(
    pc: Pc, readPos: nat, lastSeq: nat, lost: nat,
    outcome: Outcome, delivered: seq<Delivery>, continues: nat)

  datatype State = State(p: Producer, r: Reader)

  /** `parse_event` reads the two sizes, then the type length at 75, then the rest in order. */
  function LoadIndex(k: nat): (i: nat)
    requires k < HEADER_BASE
    ensures i < HEADER_BASE
  {
    if k < 8 then k else if k < 10 then 67 + k else k - 2
  }

  /** The loaded bytes put back in wire order. */
  function Window(got: seq<byte>): (h: seq<byte>)
    requires |got| == HEADER_BASE
    ensures |h| == HEADER_BASE
  {
    got[..8] + got[10..] + got[8..10]
  }

  /** The guards `parse_event` evaluates before it goes on to load the remaining fields. */
  predicate Rejects(got: seq<byte>, cap: nat, avail: nat) {
    || (|got| == 8 && !SizesOk(FromLE(got[0..4]), FromLE(got[4..8]), cap))
    || (|got| == 10 && (FromLE(got[4..8]) != HEADER_BASE + FromLE(got[8..10]) || FromLE(got[0..4]) > avail))
  }

  /** One byte of the double-mapped window at the read position. */
  function LoadMapped(p: Producer, readPos: nat, i: nat): byte
    requires |p.mem| == p.cap > 0
  {
    p.mem[(Offset(readPos, p.cap) + i) % p.cap]
  }

  /** The bytes from `readPos` to the end of the second copy. */
  function Avail(cap: nat, readPos: nat): nat
    requires cap > 0
  {
    if Offset(readPos, cap) <= 2 * cap then 2 * cap - Offset(readPos, cap) else 0
  }

  function Deliver(r: Reader, f: EventFields): Reader {
    var gap := if r.lastSeq != 0 && f.sequence > r.lastSeq + 1 then f.sequence - r.lastSeq - 1 else 0;
    r.(pc := Idle, outcome := Filled, lost := r.lost + gap, lastSeq := f.sequence,
       readPos := r.readPos + f.eventSize,
       delivered := r.delivered + [Delivery(r.readPos, f)])
  }

  /** One load of `next` (or of opening the reader), with the branch it decides. */
  function Read(p: Producer, r: Reader): Reader
    requires Shape(p)
  {
    match r.pc
    case Closed => r.(pc := OpenGeneration, readPos := Tail(p))
    case OpenGeneration => r.(pc := Idle)
    case Idle => r.(pc := LoadGeneration, outcome := Pending)
    case LoadGeneration => r.(pc := LoadWritePos)
    case LoadWritePos =>
      if WritePos(p) == r.readPos then r.(pc := Idle, outcome := Empty) else r.(pc := LoadTailPos)
    case LoadTailPos =>
      if r.readPos < Tail(p) then
        r.(pc := LoadGeneration, readPos := Tail(p), continues := r.continues + 1)
      else
        r.(pc := LoadByte(Tail(p), []))
    case LoadByte(saved, got) =>
      if Rejects(got, p.cap, Avail(p.cap, r.readPos)) then
        r.(pc := ReloadTailCorrupt)
      else if |got| < HEADER_BASE then
        r.(pc := LoadByte(saved, got + [LoadMapped(p, r.readPos, LoadIndex(|got|))]))
      else if |got| == HEADER_BASE then
        (match ParseHeader(Window(got), Avail(p.cap, r.readPos), p.cap)
         case None => r.(pc := ReloadTailCorrupt)
         case Some(f) => r.(pc := ReloadTail(saved, f)))
      else r
    case ReloadTailCorrupt =>
      if Tail(p) <= r.readPos then
        r.(pc := Idle, outcome := CorruptSlot)
      else
        r.(pc := LoadGeneration, readPos := Tail(p), continues := r.continues + 1)
    case ReloadTail(saved, f) =>
      if Tail(p) > saved && r.readPos < Tail(p) then
        r.(pc := LoadGeneration, continues := r.continues + 1)
      else
        Deliver(r, f)
  }

  // ---- runs ----

  datatype Action = Producing(step: ProducerStep) | Reading

  function Step(s: State, a: Action): (s': State)
    requires Shape(s.p)
    ensures Shape(s'.p)
  {
    match a
    case Producing(step) => s.(p := Produce(s.p, step))
    case Reading => s.(r := Read(s.p, s.r))
  }

  function Init(mem: seq<byte>): State {
    State(Producer(|mem|, mem, [], [0], 0, None, 0),
          Reader(Closed, 0, 0, 0, Pending, [], 0))
  }

  /** Every run: any schedule of producer and reader steps; a disabled producer step does nothing. */
  function Run(s: State, schedule: seq<Action>): (s': State)
    requires Shape(s.p)
    ensures Shape(s'.p)
    decreases |schedule|
  {
    if schedule == [] then s else Run(Step(s, schedule[0]), schedule[1..])
  }

  // ---- the invariant ----

  predicate Shape(p: Producer) {
    p.cap > 0 && |p.mem| == p.cap && |p.starts| == |p.log| + 1 && p.tailIdx <= |p.log|
  }

  /** Valid events end to end, their sequence numbers positive and increasing. */
  predicate Logged(log: seq<Event>, starts: seq<nat>, cap: nat)
    requires |starts| == |log| + 1
  {
    && (forall i :: 0 <= i < |log| ==> ValidEvent(log[i], cap) && log[i].sequence > 0)
    && (forall i :: 0 <= i < |log| ==> starts[i + 1] == starts[i] + Size(log[i]))
    && (forall i, j :: 0 <= i < j < |starts| ==> starts[i] < starts[j])
    && (forall i, j :: 0 <= i < j < |log| ==> log[i].sequence < log[j].sequence)
  }

  ghost predicate LogInv(p: Producer) {
    && Shape(p) && IsPowerOfTwo(p.cap) && Logged(p.log, p.starts, p.cap)
    && WritePos(p) <= Tail(p) + p.cap && WritePos(p) < Pow256(8)
    && (p.reserved.Some? ==>
          && WritePos(p) + Size(p.reserved.value) < Pow256(8)
          && ValidEvent(p.reserved.value, p.cap) && p.reserved.value.sequence > 0
          && (forall i :: 0 <= i < |p.log| ==> p.log[i].sequence < p.reserved.value.sequence))
  }

  /** Every byte of event `i` is in the ring. */
  ghost predicate Intact(p: Producer, i: nat)
    requires LogInv(p) && i < |p.log|
  {
    forall j {:trigger EncodeEvent(p.log[i])[j]} :: 0 <= j < Size(p.log[i]) ==>
      p.mem[(p.starts[i] + j) % p.cap] == EncodeEvent(p.log[i])[j]
  }

  ghost predicate ProducerInv(p: Producer) {
    && LogInv(p)
    && forall i :: p.tailIdx <= i < |p.log| ==> Intact(p, i)
  }

  /** `pos` is where event `k` starts (or where event `k` will start, when `k` is the next one). */
  predicate StartsAt(p: Producer, pos: nat, k: nat) {
    k < |p.starts| && p.starts[k] == pos
  }

  ghost predicate OnBoundary(p: Producer, pos: nat) {
    exists k: nat :: StartsAt(p, pos, k)
  }

  /** The first `n` header bytes in load order. */
  function Loaded(h: seq<byte>, n: nat): seq<byte>
    requires |h| == HEADER_BASE && n <= HEADER_BASE
  {
    seq(n, i requires 0 <= i < n => h[LoadIndex(i)])
  }

  ghost predicate PcInv(p: Producer, r: Reader)
    requires ProducerInv(p)
  {
    match r.pc
    case Closed => r.readPos == 0 && r.delivered == [] && r.continues == 0
    case LoadTailPos => r.readPos < WritePos(p)
    case LoadByte(saved, got) =>
      && saved <= r.readPos < WritePos(p) && |got| <= HEADER_BASE
      && (Tail(p) <= r.readPos ==> forall k: nat | k < |p.log| && StartsAt(p, r.readPos, k) ::
            got == Loaded(Header(p.log[k]), |got|))
    case ReloadTail(saved, f) =>
      && saved <= r.readPos < WritePos(p)
      && (Tail(p) <= r.readPos ==> forall k: nat | k < |p.log| && StartsAt(p, r.readPos, k) ::
            f == FieldsOf(p.log[k]))
    case ReloadTailCorrupt => r.readPos < Tail(p)
    case _ => true
  }

  /** Delivery `d` carries exactly the header the producer wrote at its position. */
  ghost predicate Genuine(p: Producer, d: Delivery) {
    exists k: nat :: k < |p.log| && StartsAt(p, d.pos, k) && d.fields == FieldsOf(p.log[k])
  }

  ghost predicate DeliveryInv(p: Producer, r: Reader) {
    && (forall i :: 0 <= i < |r.delivered| ==> Genuine(p, r.delivered[i]) && r.delivered[i].pos < r.readPos)
    && (forall i, j :: 0 <= i < j < |r.delivered| ==> r.delivered[i].pos < r.delivered[j].pos)
  }

  /** Delivered plus lost spans the sequence numbers from the first delivered to the last. */
  predicate Accounted(r: Reader) {
    if r.delivered == [] then r.lastSeq == 0 && r.lost == 0
    else
      && r.lastSeq == r.delivered[|r.delivered| - 1].fields.sequence
      && |r.delivered| + r.lost == r.lastSeq - r.delivered[0].fields.sequence + 1
  }

  /** How many more times `next` can go round its loop if the producer now stands still. */
  function Owed(p: Producer, r: Reader): nat
    requires Shape(p)
  {
    if r.pc.Closed? || Tail(p) <= r.readPos then 0
    else if r.pc.LoadByte? || r.pc.ReloadTail? then 2
    else 1
  }

  ghost predicate Inv(s: State) {
    && ProducerInv(s.p)
    && OnBoundary(s.p, s.r.readPos) && s.r.readPos <= WritePos(s.p)
    && PcInv(s.p, s.r)
    && DeliveryInv(s.p, s.r)
    && Accounted(s.r)
    && s.r.outcome != CorruptSlot
    && s.r.continues + Owed(s.p, s.r) <= 2 * s.p.tailAdvances
  }

  lemma InitInv(mem: seq<byte>)
    requires IsPowerOfTwo(|mem|)
    ensures Inv(Init(mem))
  {
    assert StartsAt(Init(mem).p, 0, 0);
  }

  // ---- the producer keeps its side ----

  /** A store into the reserved slot misses every byte at or after the tail. */
  lemma ScribbleMisses(p: Producer, i: nat, b: byte, k: nat, j: nat)
    requires LogInv(p) && Enabled(p, Scribble(i, b)) && p.tailIdx <= k < |p.log| && j < Size(p.log[k])
    ensures Produce(p, Scribble(i, b)).mem[(p.starts[k] + j) % p.cap] == p.mem[(p.starts[k] + j) % p.cap]
  {
    hide EncodeEvent, ValidEvent, IsPowerOfTwo;
    var from, to := p.starts[k] + j, WritePos(p) + i;
    EventInside(p, k);
    StoreElsewhere(p.mem, from, to, b);
  }

  /** An event at or after the tail ends at or before the write position. */
  lemma EventInside(p: Producer, k: nat)
    requires LogInv(p) && p.tailIdx <= k < |p.log|
    ensures Tail(p) <= p.starts[k] && p.starts[k] + Size(p.log[k]) <= WritePos(p)
  {
    hide ValidEvent, IsPowerOfTwo;
    assert p.starts[k + 1] == p.starts[k] + Size(p.log[k]);
  }

  lemma StoreElsewhere(mem: seq<byte>, from: nat, to: nat, b: byte)
    requires from < to < from + |mem|
    ensures mem[to % |mem| := b][from % |mem|] == mem[from % |mem|]
  {
    ModuloApart(from, to, |mem|);
  }

  lemma ScribbledByte(p: Producer, i: nat, b: byte, k: nat, j: nat)
    requires ProducerInv(p) && Enabled(p, Scribble(i, b)) && p.tailIdx <= k < |p.log| && j < Size(p.log[k])
    ensures Produce(p, Scribble(i, b)).mem[(p.starts[k] + j) % p.cap] == EncodeEvent(p.log[k])[j]
  {
    hide EncodeEvent, IsPowerOfTwo, Enabled, Produce;
    ScribbleMisses(p, i, b, k, j);
    assert Intact(p, k);
    assert p.mem[(p.starts[k] + j) % p.cap] == EncodeEvent(p.log[k])[j];
  }

  lemma ScribbleKeepsLog(p: Producer, i: nat, b: byte)
    requires LogInv(p) && Enabled(p, Scribble(i, b))
    ensures var p' := Produce(p, Scribble(i, b));
      LogInv(p') && p'.log == p.log && p'.starts == p.starts && p'.cap == p.cap && |p'.mem| == p.cap > 0
  {
    hide EncodeEvent, ValidEvent, IsPowerOfTwo, Logged;
  }

  lemma ScribbleKeepsIntact(p: Producer, i: nat, b: byte, k: nat)
    requires ProducerInv(p) && Enabled(p, Scribble(i, b)) && p.tailIdx <= k < |p.log|
    ensures LogInv(Produce(p, Scribble(i, b))) && Intact(Produce(p, Scribble(i, b)), k)
  {
    hide EncodeEvent, IsPowerOfTwo, Enabled, Produce;
    ScribbleKeepsLog(p, i, b);
    var p' := Produce(p, Scribble(i, b));
    forall j {:trigger EncodeEvent(p'.log[k])[j]} | 0 <= j < Size(p.log[k])
      ensures p'.mem[(p'.starts[k] + j) % p'.cap] == EncodeEvent(p'.log[k])[j]
    {
      ScribbledByte(p, i, b, k, j);
    }
  }

  lemma IntactFrame(p: Producer, p': Producer, i: nat)
    requires LogInv(p) && LogInv(p') && i < |p.log| && i < |p'.log|
    requires p'.mem == p.mem && p'.cap == p.cap && p'.log[i] == p.log[i] && p'.starts[i] == p.starts[i]
    requires Intact(p, i)
    ensures Intact(p', i)
  {
  }

  lemma LoggedMore(log: seq<Event>, starts: seq<nat>, cap: nat, e: Event)
    requires |starts| == |log| + 1 && Logged(log, starts, cap) && ValidEvent(e, cap) && e.sequence > 0
    requires forall i :: 0 <= i < |log| ==> log[i].sequence < e.sequence
    ensures Logged(log + [e], starts + [starts[|log|] + Size(e)], cap)
  {
    hide ValidEvent;
    var log', starts' := log + [e], starts + [starts[|log|] + Size(e)];
    assert forall i :: 0 <= i < |log| ==> log'[i] == log[i];
    assert forall i :: 0 <= i < |starts| ==> starts'[i] == starts[i];
    forall i, j | 0 <= i < j < |starts'| ensures starts'[i] < starts'[j] {
      if j == |starts| {
        assert i < |log| ==> starts[i] < starts[|log|];
      }
    }
  }

  lemma PublishKeepsLog(p: Producer)
    requires LogInv(p) && Enabled(p, Publish)
    ensures LogInv(Produce(p, Publish))
  {
    hide EncodeEvent, ValidEvent, IsPowerOfTwo, Logged;
    var p' := Produce(p, Publish);
    LoggedMore(p.log, p.starts, p.cap, p.reserved.value);
    TailAhead(p);
    assert p'.starts[p.tailIdx] == p.starts[p.tailIdx];
  }

  lemma TailAhead(p: Producer)
    requires LogInv(p)
    ensures Tail(p) <= WritePos(p)
  {
    hide ValidEvent, IsPowerOfTwo;
  }

  lemma TailMoves(p: Producer, to: nat)
    requires LogInv(p) && p.tailIdx < to <= |p.log|
    ensures Tail(p) < p.starts[to]
  {
    hide ValidEvent, IsPowerOfTwo;
  }

  lemma ReserveKeepsLog(p: Producer, e: Event)
    requires LogInv(p) && Enabled(p, Reserve(e))
    ensures LogInv(Produce(p, Reserve(e)))
  {
    hide EncodeEvent, ValidEvent, IsPowerOfTwo;
  }

  lemma AdvanceKeepsLog(p: Producer, to: nat)
    requires LogInv(p) && Enabled(p, AdvanceTail(to))
    ensures LogInv(Produce(p, AdvanceTail(to)))
  {
    hide EncodeEvent, ValidEvent, IsPowerOfTwo, Logged;
    TailMoves(p, to);
  }

  lemma ProduceKeepsLog(p: Producer, step: ProducerStep)
    requires LogInv(p)
    ensures LogInv(Produce(p, step))
  {
    hide EncodeEvent, ValidEvent, IsPowerOfTwo, Logged;
    if Enabled(p, step) {
      match step
      case Reserve(e) => ReserveKeepsLog(p, e);
      case AdvanceTail(to) => AdvanceKeepsLog(p, to);
      case Publish => PublishKeepsLog(p);
      case _ =>
    }
  }

  lemma ProduceKeepsInv(p: Producer, step: ProducerStep)
    requires ProducerInv(p)
    ensures ProducerInv(Produce(p, step))
  {
    hide EncodeEvent, ValidEvent;
    var p' := Produce(p, step);
    ProduceKeepsLog(p, step);
    forall k | p'.tailIdx <= k < |p'.log| ensures Intact(p', k) {
      if Enabled(p, step) && step.Scribble? {
        ScribbleKeepsIntact(p, step.i, step.b, k);
      } else if k < |p.log| {
        IntactFrame(p, p', k);
      } else {
        assert p'.starts[k] == WritePos(p) && p'.log[k] == p.reserved.value;
      }
    }
  }

  /** What the reader may rely on while the producer runs. */
  predicate Extends(p: Producer, p': Producer) {
    && p.cap == p'.cap && p.log <= p'.log && p.starts <= p'.starts
    && p.tailIdx <= p'.tailIdx && p.tailAdvances <= p'.tailAdvances
    && (p.tailAdvances == p'.tailAdvances ==> p.tailIdx == p'.tailIdx)
  }

  lemma ExtendKeepsPositions(p: Producer, p': Producer)
    requires LogInv(p) && LogInv(p') && Extends(p, p')
    ensures WritePos(p) <= WritePos(p') && Tail(p) <= Tail(p')
    ensures p.tailAdvances == p'.tailAdvances ==> Tail(p) == Tail(p')
    ensures forall pos: nat, k: nat :: StartsAt(p, pos, k) ==> StartsAt(p', pos, k)
    ensures forall pos: nat, k: nat :: StartsAt(p', pos, k) && pos < WritePos(p) ==> k < |p.log| && StartsAt(p, pos, k)
  {
    assert WritePos(p) == p'.starts[|p.log|];
    assert Tail(p) == p'.starts[p.tailIdx];
  }

  lemma ExtendKeepsDeliveries(p: Producer, p': Producer, r: Reader)
    requires LogInv(p) && LogInv(p') && Extends(p, p') && DeliveryInv(p, r)
    ensures DeliveryInv(p', r)
  {
    forall i | 0 <= i < |r.delivered| ensures Genuine(p', r.delivered[i]) {
      var d := r.delivered[i];
      assert Genuine(p, d);
      var n: nat :| n < |p.log| && StartsAt(p, d.pos, n) && d.fields == FieldsOf(p.log[n]);
      assert n < |p'.log| && StartsAt(p', d.pos, n) && p'.log[n] == p.log[n];
    }
  }

  lemma ExtendKeepsReader(p: Producer, p': Producer, r: Reader)
    requires Inv(State(p, r)) && ProducerInv(p') && Extends(p, p')
    ensures Inv(State(p', r))
  {
    hide EncodeEvent, ValidEvent, Intact, FieldsOf, Header, DeliveryInv, Loaded;
    ExtendKeepsPositions(p, p');
    ExtendKeepsDeliveries(p, p', r);
    assert OnBoundary(p', r.readPos) by {
      var k: nat :| StartsAt(p, r.readPos, k);
      assert StartsAt(p', r.readPos, k);
    }
    assert forall k :: 0 <= k < |p.log| ==> p'.log[k] == p.log[k];
    assert PcInv(p', r);
  }

  lemma ProduceExtends(p: Producer, step: ProducerStep)
    requires LogInv(p)
    ensures Extends(p, Produce(p, step))
  {
  }

  // ---- the reader keeps its side ----

  lemma WindowOfLoaded(h: seq<byte>)
    requires |h| == HEADER_BASE
    ensures Window(Loaded(h, HEADER_BASE)) == h
  {
    var got := Loaded(h, HEADER_BASE);
    assert forall i :: 0 <= i < HEADER_BASE ==> got[i] == h[LoadIndex(i)];
  }

  lemma LoadedGuards(e: Event, cap: nat, avail: nat, n: nat)
    requires ValidEvent(e, cap) && Size(e) <= avail && n <= HEADER_BASE
    ensures !Rejects(Loaded(Header(e), n), cap, avail)
  {
    hide ToLE, FromLE, Header;
    var h, got := Header(e), Loaded(Header(e), n);
    HeaderSlices(e);
    PowValues();
    LeRoundTrip(Size(e), 4);
    LeRoundTrip(HEADER_BASE + |e.eventType|, 4);
    LeRoundTrip(|e.eventType|, 2);
    if n >= 8 {
      assert got[0..4] == h[0..4] && got[4..8] == h[4..8];
    }
    if n >= 10 {
      assert got[8..10] == h[75..77];
    }
  }

  /** The mapped offset names the same ring byte as the free-running position. */
  lemma MappedOffset(readPos: nat, i: nat, cap: nat)
    requires IsPowerOfTwo(cap)
    ensures cap > 0 && (Offset(readPos, cap) + i) % cap == (readPos + i) % cap && Avail(cap, readPos) >= cap
  {
    var n: nat :| Pow2(n) == cap;
    MaskIsModulo(readPos, n);
    ModuloShift(readPos, i, cap);
  }

  /** Bytes of an event the tail has not passed are loaded exactly as written. */
  lemma LoadIsGenuine(p: Producer, readPos: nat, k: nat, i: nat)
    requires ProducerInv(p) && Tail(p) <= readPos && k < |p.log| && StartsAt(p, readPos, k) && i < HEADER_BASE
    ensures LoadMapped(p, readPos, i) == Header(p.log[k])[i]
    ensures Size(p.log[k]) <= Avail(p.cap, readPos)
  {
    hide Header, Offset, Avail, IsPowerOfTwo;
    MappedOffset(readPos, i, p.cap);
    assert p.tailIdx <= k;
    assert Intact(p, k);
    assert EncodeEvent(p.log[k])[i] == Header(p.log[k])[i];
  }

  /** The event the read position points at, while it has not reached the write position. */
  lemma CurrentEvent(p: Producer, r: Reader) returns (k: nat)
    requires LogInv(p) && OnBoundary(p, r.readPos) && r.readPos < WritePos(p)
    ensures k < |p.log| && StartsAt(p, r.readPos, k)
    ensures forall n: nat :: StartsAt(p, r.readPos, n) ==> n == k
  {
    k :| StartsAt(p, r.readPos, k);
  }

  lemma LoadByteKeepsPc(p: Producer, r: Reader)
    requires Inv(State(p, r)) && r.pc.LoadByte?
    ensures PcInv(p, Read(p, r))
  {
    hide EncodeEvent, Intact, FieldsOf, Header, DeliveryInv, LoadMapped, ParseHeader, Window, Rejects;
    var got := r.pc.got;
    var r' := Read(p, r);
    var k := CurrentEvent(p, r);
    if Tail(p) <= r.readPos {
      var e := p.log[k];
      var n := |got|;
      LoadIsGenuine(p, r.readPos, k, 0);
      LoadedGuards(e, p.cap, Avail(p.cap, r.readPos), n);
      if n < HEADER_BASE {
        LoadIsGenuine(p, r.readPos, k, LoadIndex(n));
        assert r'.pc.got == Loaded(Header(e), n + 1);
      } else {
        WindowOfLoaded(Header(e));
        HeaderRoundTrip(e, Avail(p.cap, r.readPos), p.cap);
      }
    }
  }

  /** The sequence numbers still ahead of the read position exceed the last one delivered. */
  lemma SequenceAhead(p: Producer, r: Reader, k: nat)
    requires LogInv(p) && DeliveryInv(p, r) && Accounted(r) && k < |p.log| && StartsAt(p, r.readPos, k)
    ensures r.lastSeq < p.log[k].sequence && (r.delivered != [] ==> r.lastSeq > 0)
  {
    if r.delivered != [] {
      var d := r.delivered[|r.delivered| - 1];
      assert Genuine(p, d);
      var n: nat :| n < |p.log| && StartsAt(p, d.pos, n) && d.fields == FieldsOf(p.log[n]);
      assert n < k;
    }
  }

  lemma DeliverKeepsDeliveries(p: Producer, r: Reader, k: nat)
    requires Shape(p) && DeliveryInv(p, r) && r.pc.ReloadTail?
    requires k < |p.log| && StartsAt(p, r.readPos, k) && r.pc.f == FieldsOf(p.log[k])
    ensures DeliveryInv(p, Deliver(r, r.pc.f))
  {
    hide FieldsOf;
    var f := r.pc.f;
    SizePositive(p.log[k]);
    var r' := Deliver(r, f);
    var d := Delivery(r.readPos, f);
    assert Genuine(p, d);
    assert forall i | 0 <= i < |r.delivered| :: r'.delivered[i] == r.delivered[i];
    assert r'.delivered[|r.delivered|] == d;
  }

  lemma SizePositive(e: Event)
    ensures FieldsOf(e).eventSize == Size(e) > 0 && FieldsOf(e).sequence == e.sequence
  {
  }

  lemma DeliverAccounts(r: Reader, f: EventFields)
    requires Accounted(r) && r.lastSeq < f.sequence && (r.delivered != [] ==> r.lastSeq > 0)
    ensures Accounted(Deliver(r, f))
  {
    var r' := Deliver(r, f);
    assert r.delivered != [] ==> r'.delivered[0] == r.delivered[0];
  }

  lemma NextStart(p: Producer, pos: nat, k: nat)
    requires LogInv(p) && k < |p.log| && StartsAt(p, pos, k)
    ensures StartsAt(p, pos + Size(p.log[k]), k + 1) && pos + Size(p.log[k]) <= WritePos(p)
  {
    hide ValidEvent, IsPowerOfTwo;
  }

  lemma DeliverKeepsInv(p: Producer, r: Reader)
    requires Inv(State(p, r)) && r.pc.ReloadTail? && Tail(p) <= r.readPos
    ensures Inv(State(p, Deliver(r, r.pc.f)))
  {
    hide Intact, FieldsOf, DeliveryInv, Accounted, Logged;
    var f := r.pc.f;
    var k := CurrentEvent(p, r);
    SizePositive(p.log[k]);
    NextStart(p, r.readPos, k);
    SequenceAhead(p, r, k);
    DeliverKeepsDeliveries(p, r, k);
    DeliverAccounts(r, f);
    var r' := Deliver(r, f);
    assert StartsAt(p, r'.readPos, k + 1) && Tail(p) <= r'.readPos;
    assert OnBoundary(p, r'.readPos);
  }

  /** Steps that neither load a header byte nor move the read position. */
  lemma StayKeepsInv(p: Producer, r: Reader, r': Reader)
    requires Inv(State(p, r)) && PcInv(p, r')
    requires r' == r.(pc := r'.pc, outcome := r'.outcome, continues := r'.continues) && r'.outcome != CorruptSlot
    requires r'.continues + Owed(p, r') <= 2 * p.tailAdvances
    ensures Inv(State(p, r'))
  {
  }

  /** Steps that resynchronise to the tail. */
  lemma JumpKeepsInv(p: Producer, r: Reader, r': Reader)
    requires Inv(State(p, r)) && r.readPos <= Tail(p)
    requires r' == r.(pc := r'.pc, readPos := Tail(p), continues := r'.continues)
    requires r'.pc.LoadGeneration? || r'.pc.OpenGeneration?
    requires r'.continues <= 2 * p.tailAdvances
    ensures Inv(State(p, r'))
  {
    assert StartsAt(p, Tail(p), p.tailIdx);
    assert Tail(p) <= WritePos(p);
  }

  lemma ReadKeepsInv(p: Producer, r: Reader)
    requires Inv(State(p, r))
    ensures Inv(State(p, Read(p, r)))
  {
    hide EncodeEvent, Intact, Header, FieldsOf, DeliveryInv, ParseHeader, Window, Rejects, LoadMapped, OnBoundary;
    var r' := Read(p, r);
    match r.pc
    case Closed => JumpKeepsInv(p, r, r');
    case LoadTailPos =>
      if r.readPos < Tail(p) {
        JumpKeepsInv(p, r, r');
      } else {
        assert forall k: nat | k < |p.log| :: [] == Loaded(Header(p.log[k]), 0);
        StayKeepsInv(p, r, r');
      }
    case ReloadTailCorrupt => JumpKeepsInv(p, r, r');
    case LoadByte(saved, got) =>
      LoadByteKeepsPc(p, r);
      StayKeepsInv(p, r, r');
    case ReloadTail(saved, f) =>
      if Tail(p) > saved && r.readPos < Tail(p) {
        StayKeepsInv(p, r, r');
      } else {
        DeliverKeepsInv(p, r);
      }
    case _ => StayKeepsInv(p, r, r');
  }

  lemma StepKeepsInv(s: State, a: Action)
    requires Inv(s)
    ensures Inv(Step(s, a))
  {
    match a
    case Producing(step) =>
      ProduceKeepsInv(s.p, step);
      ProduceExtends(s.p, step);
      ExtendKeepsReader(s.p, Produce(s.p, step), s.r);
    case Reading =>
      ReadKeepsInv(s.p, s.r);
  }

  lemma {:induction false} RunKeepsInv(s: State, schedule: seq<Action>)
    requires Inv(s)
    ensures Inv(Run(s, schedule))
    decreases |schedule|
  {
    if schedule != [] {
      StepKeepsInv(s, schedule[0]);
      RunKeepsInv(Step(s, schedule[0]), schedule[1..]);
    }
  }

  // ---- what every run guarantees ----

  /** No torn or overwritten slot is ever returned: each delivery is a header the producer wrote there. */
  lemma DeliveredAreGenuine(mem: seq<byte>, schedule: seq<Action>)
    requires IsPowerOfTwo(|mem|)
    ensures var s := Run(Init(mem), schedule);
      && (forall i :: 0 <= i < |s.r.delivered| ==> Genuine(s.p, s.r.delivered[i]))
      && (forall i, j :: 0 <= i < j < |s.r.delivered| ==> s.r.delivered[i].pos < s.r.delivered[j].pos)
  {
    InitInv(mem);
    RunKeepsInv(Init(mem), schedule);
  }

  /** The read position stays on an event boundary, at most the write position, and fits 64 bits. */
  lemma ReadPositionSound(mem: seq<byte>, schedule: seq<Action>)
    requires IsPowerOfTwo(|mem|)
    ensures var s := Run(Init(mem), schedule);
      OnBoundary(s.p, s.r.readPos) && s.r.readPos <= WritePos(s.p) < Pow256(8)
  {
    InitInv(mem);
    RunKeepsInv(Init(mem), schedule);
  }

  /** `next` never reports a corrupt slot. */
  lemma CorruptUnreachable(mem: seq<byte>, schedule: seq<Action>)
    requires IsPowerOfTwo(|mem|)
    ensures Run(Init(mem), schedule).r.outcome != CorruptSlot
  {
    InitInv(mem);
    RunKeepsInv(Init(mem), schedule);
  }

  /** Delivered plus lost is the span of sequence numbers; both counters stay inside 64 bits. */
  lemma LossIsAccounted(mem: seq<byte>, schedule: seq<Action>)
    requires IsPowerOfTwo(|mem|)
    ensures var r := Run(Init(mem), schedule).r;
      if r.delivered == [] then r.lost == 0
      else
        && |r.delivered| + r.lost == r.lastSeq - r.delivered[0].fields.sequence + 1
        && r.lastSeq == r.delivered[|r.delivered| - 1].fields.sequence < Pow256(8)
  {
    InitInv(mem);
    RunKeepsInv(Init(mem), schedule);
    var s := Run(Init(mem), schedule);
    if s.r.delivered != [] {
      assert Genuine(s.p, s.r.delivered[|s.r.delivered| - 1]);
    }
  }

  /** Every trip round the loop is paid for by the producer: at most two per tail advance. */
  lemma ContinuesArePaid(mem: seq<byte>, schedule: seq<Action>)
    requires IsPowerOfTwo(|mem|)
    ensures var s := Run(Init(mem), schedule); s.r.continues <= 2 * s.p.tailAdvances
  {
    InitInv(mem);
    RunKeepsInv(Init(mem), schedule);
  }

  // ---- a quiet producer ----

  /** Loads left before the current trip round the loop ends. */
  function LoadsLeft(pc: Pc): nat {
    match pc
    case LoadGeneration => 82
    case LoadWritePos => 81
    case LoadTailPos => 80
    case LoadByte(_, got) => if |got| <= HEADER_BASE then 2 + HEADER_BASE - |got| else 0
    case ReloadTail(_, _) => 1
    case ReloadTailCorrupt => 1
    case _ => 0
  }

  function Rank(p: Producer, r: Reader): nat
    requires Shape(p)
  {
    83 * Owed(p, r) + LoadsLeft(r.pc)
  }

  /** The position `next` will settle on: the read position, or the tail when lapped. */
  function Target(p: Producer, readPos: nat): nat
    requires Shape(p)
  {
    if readPos < Tail(p) then Tail(p) else readPos
  }

  function ReadFor(p: Producer, r: Reader, n: nat): Reader
    requires Shape(p)
    decreases n
  {
    if n == 0 then r else ReadFor(p, Read(p, r), n - 1)
  }

  /** `r` is inside the call of `next` that `r0` made with the producer standing still since. */
  ghost predicate InCall(p: Producer, r0: Reader, r: Reader) {
    && Inv(State(p, r)) && LoadsLeft(r.pc) > 0
    && r.delivered == r0.delivered
    && Target(p, r.readPos) == Target(p, r0.readPos)
  }

  /** The call has returned the event at the target position, or found that there is none. */
  ghost predicate Returned(p: Producer, r0: Reader, r: Reader)
    requires Shape(p)
  {
    && r.pc.Idle?
    && var at := Target(p, r0.readPos);
    if at == WritePos(p) then
      r.outcome == Empty && r.delivered == r0.delivered
    else
      && r.outcome == Filled
      && exists k: nat :: k < |p.log| && StartsAt(p, at, k)
           && r.delivered == r0.delivered + [Delivery(at, FieldsOf(p.log[k]))]
           && StartsAt(p, r.readPos, k + 1)
  }

  lemma QuietDelivery(p: Producer, r0: Reader, r: Reader)
    requires InCall(p, r0, r) && r.pc.ReloadTail? && Tail(p) <= r.readPos
    ensures Returned(p, r0, Deliver(r, r.pc.f))
  {
    var r' := Deliver(r, r.pc.f);
    var k := CurrentEvent(p, r);
    assert r'.delivered == r0.delivered + [Delivery(r.readPos, FieldsOf(p.log[k]))];
    assert StartsAt(p, r'.readPos, k + 1);
  }

  lemma QuietMove(p: Producer, r: Reader)
    requires Shape(p) && ProducerInv(p) && PcInv(p, r) && PcInv(p, Read(p, r))
    requires LoadsLeft(r.pc) > 0 && LoadsLeft(Read(p, r).pc) > 0
    ensures Rank(p, Read(p, r)) < Rank(p, r)
    ensures Target(p, Read(p, r).readPos) == Target(p, r.readPos)
    ensures Read(p, r).delivered == r.delivered && Read(p, r).outcome == r.outcome
  {
    hide ProducerInv, LogInv, Header, FieldsOf, ParseHeader, Window, Rejects, LoadMapped, Loaded;
  }

  lemma QuietStep(p: Producer, r0: Reader, r: Reader)
    requires InCall(p, r0, r)
    ensures var r' := Read(p, r);
      Returned(p, r0, r') || (InCall(p, r0, r') && Rank(p, r') < Rank(p, r))
  {
    hide EncodeEvent, ValidEvent, Intact, Header, FieldsOf, DeliveryInv, ParseHeader, Window, Rejects, LoadMapped, OnBoundary, Loaded;
    var r' := Read(p, r);
    ReadKeepsInv(p, r);
    if r.pc.ReloadTail? && Tail(p) <= r.readPos {
      QuietDelivery(p, r0, r);
    } else if LoadsLeft(r'.pc) > 0 {
      QuietMove(p, r);
    } else {
      assert r.pc.LoadWritePos?;
      assert Tail(p) <= WritePos(p);
    }
  }

  lemma {:induction false} QuietReturns(p: Producer, r0: Reader, r: Reader) returns (n: nat)
    requires InCall(p, r0, r)
    ensures n <= Rank(p, r) + 1 && Returned(p, r0, ReadFor(p, r, n))
    decreases Rank(p, r)
  {
    QuietStep(p, r0, r);
    var r' := Read(p, r);
    if Returned(p, r0, r') {
      assert ReadFor(p, r', 0) == r';
      n := 1;
    } else {
      var m := QuietReturns(p, r0, r');
      n := m + 1;
    }
  }

  /** A reader that has been opened is between calls, or has loads of a call left. */
  lemma InsideOrBetween(s: State)
    requires Inv(s) && !s.r.pc.Closed? && !s.r.pc.OpenGeneration? && !s.r.pc.Idle?
    ensures InCall(s.p, s.r, s.r)
  {
    hide ProducerInv, DeliveryInv, OnBoundary, Genuine;
  }

  /**
   * From every state a run can reach with the reader open, once the producer stands still the call
   * of `next` returns, with the oldest surviving unread event exactly when there is one: within 249
   * loads when the call was already under way, lapped or not, and within 167 when it is still to start.
   */
  lemma NextReturnsWhenQuiet(mem: seq<byte>, schedule: seq<Action>) returns (n: nat)
    requires IsPowerOfTwo(|mem|)
    requires var pc := Run(Init(mem), schedule).r.pc; !pc.Closed? && !pc.OpenGeneration?
    ensures n <= 249 && (Run(Init(mem), schedule).r.pc.Idle? ==> n <= 167)
    ensures var s := Run(Init(mem), schedule); Returned(s.p, s.r, ReadFor(s.p, s.r, n))
  {
    hide EncodeEvent, ValidEvent, Intact, Header, FieldsOf, DeliveryInv, ParseHeader, Window, Rejects, LoadMapped,
         OnBoundary, Loaded, ProducerInv, Returned;
    InitInv(mem);
    RunKeepsInv(Init(mem), schedule);
    var s := Run(Init(mem), schedule);
    if s.r.pc.Idle? {
      ReadKeepsInv(s.p, s.r);
      var m := QuietReturns(s.p, s.r, Read(s.p, s.r));
      n := m + 1;
    } else {
      InsideOrBetween(s);
      n := QuietReturns(s.p, s.r, s.r);
    }
  }
}
