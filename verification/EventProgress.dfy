/** The producer the reader is proved against is not idle: whatever it may say next, it can publish. */
module EventProgress {
  import opened Bytes
  import opened EventHeader
  import opened EventReader

  function ProduceAll(p: Producer, steps: seq<ProducerStep>): (p': Producer)
    requires Shape(p)
    ensures Shape(p')
    decreases |steps|
  {
    if steps == [] then p else ProduceAll(Produce(p, steps[0]), steps[1..])
  }

  lemma {:induction false} ProduceMore(p: Producer, a: seq<ProducerStep>, b: seq<ProducerStep>)
    requires Shape(p)
    ensures ProduceAll(p, a + b) == ProduceAll(ProduceAll(p, a), b)
    decreases |a|
  {
    hide Produce;
    if a == [] {
      assert a + b == b;
    } else {
      assert (a + b)[0] == a[0] && (a + b)[1..] == a[1..] + b;
      ProduceMore(Produce(p, a[0]), a[1..], b);
    }
  }

  lemma ProduceOne(p: Producer, step: ProducerStep)
    requires Shape(p)
    ensures ProduceAll(p, [step]) == Produce(p, step)
  {
    hide Produce;
    assert [step][1..] == [];
    assert ProduceAll(Produce(p, step), []) == Produce(p, step);
  }

  /** The first `n` of `bytes` are in the ring from position `w` on. */
  predicate Written(mem: seq<byte>, w: nat, bytes: seq<byte>, n: nat)
    requires |mem| > 0 && n <= |bytes|
  {
    forall i :: 0 <= i < n ==> mem[(w + i) % |mem|] == bytes[i]
  }

  lemma StoreNext(mem: seq<byte>, w: nat, bytes: seq<byte>, n: nat)
    requires n < |bytes| <= |mem| && Written(mem, w, bytes, n)
    ensures Written(mem[(w + n) % |mem| := bytes[n]], w, bytes, n + 1)
  {
    var c := |mem|;
    var mem' := mem[(w + n) % c := bytes[n]];
    forall i | 0 <= i < n + 1 ensures mem'[(w + i) % c] == bytes[i] {
      if i < n {
        ModuloApart(w + i, w + n, c);
      }
    }
  }

  /** There is room for `e` up to one capacity past the tail. */
  predicate Room(p: Producer, e: Event)
    requires Shape(p)
  {
    p.starts[|p.log|] + 77 + |e.eventType| + |e.payload| <= p.starts[p.tailIdx] + p.cap
  }

  lemma RoomIs(p: Producer, e: Event)
    requires Shape(p) && p.reserved == Some(e)
    ensures HasRoom(p) <==> Room(p, e)
  {
  }

  /** A store into the reserved slot. */
  lemma Stores(p: Producer, e: Event, n: nat, b: byte)
    requires Shape(p) && p.reserved == Some(e) && Room(p, e) && n < Size(e)
    ensures Produce(p, Scribble(n, b)) == p.(mem := p.mem[(WritePos(p) + n) % p.cap := b])
  {
    RoomIs(p, e);
  }

  lemma {:induction false} Fill(p: Producer, e: Event, bytes: seq<byte>, n: nat) returns (steps: seq<ProducerStep>)
    requires Shape(p) && p.reserved == Some(e) && Room(p, e)
    requires n <= |bytes| == Size(e) <= p.cap && Written(p.mem, WritePos(p), bytes, n)
    ensures var p' := ProduceAll(p, steps);
      p' == p.(mem := p'.mem) && Written(p'.mem, WritePos(p), bytes, |bytes|)
    decreases |bytes| - n
  {
    hide Written, Produce, Size;
    if n == |bytes| {
      steps := [];
    } else {
      var step := Scribble(n, bytes[n]);
      Stores(p, e, n, bytes[n]);
      StoreNext(p.mem, WritePos(p), bytes, n);
      var more := Fill(Produce(p, step), e, bytes, n + 1);
      steps := [step] + more;
      assert steps[1..] == more;
    }
  }

  /** What may be published next: a valid event with a higher sequence number, inside 64 bits of positions. */
  predicate MaySay(p: Producer, e: Event)
    requires Shape(p)
  {
    && ValidEvent(e, p.cap) && e.sequence > 0
    && (p.log != [] ==> p.log[|p.log| - 1].sequence < e.sequence)
    && WritePos(p) + Size(e) < Pow256(8)
  }

  lemma FillAndPublish(p: Producer, e: Event) returns (steps: seq<ProducerStep>)
    requires Shape(p) && p.reserved == Some(e) && Room(p, e) && ValidEvent(e, p.cap)
    ensures var p' := ProduceAll(p, steps);
      p'.log == p.log + [e] && p'.reserved.None? && p'.tailIdx == p.tailIdx && p'.tailAdvances == p.tailAdvances
  {
    assert Written(p.mem, WritePos(p), EncodeEvent(e), 0);
    hide EncodeEvent, Produce, ProduceAll, Size, Room, Written;
    var fill := Fill(p, e, EncodeEvent(e), 0);
    var p1 := ProduceAll(p, fill);
    SameRoom(p, p1, e);
    RoomIs(p1, e);
    Publishes(p1, e);
    steps := fill + [Publish];
    ProduceMore(p, fill, [Publish]);
    ProduceOne(p1, Publish);
  }

  lemma SameRoom(p: Producer, p': Producer, e: Event)
    requires Shape(p) && p' == p.(mem := p'.mem) && |p'.mem| == |p.mem|
    ensures Room(p, e) == Room(p', e) && WritePos(p) == WritePos(p')
  {
  }

  lemma Publishes(p: Producer, e: Event)
    requires Shape(p) && p.reserved == Some(e) && HasRoom(p) && ValidEvent(e, p.cap)
    requires Written(p.mem, WritePos(p), EncodeEvent(e), Size(e))
    ensures var p' := Produce(p, Publish);
      p'.log == p.log + [e] && p'.reserved.None? && p'.tailIdx == p.tailIdx && p'.tailAdvances == p.tailAdvances
  {
    hide EncodeEvent;
    assert Enabled(p, Publish);
  }

  /**
   * From every state with nothing reserved, whatever valid event comes next can be published, and the
   * tail moves only if the ring has no room for it.
   */
  lemma ProducerPublishes(p: Producer, e: Event) returns (steps: seq<ProducerStep>)
    requires Shape(p) && p.reserved.None? && MaySay(p, e)
    ensures var p' := ProduceAll(p, steps);
      && p'.log == p.log + [e] && p'.reserved.None?
      && (Room(p, e) ==> p'.tailIdx == p.tailIdx && p'.tailAdvances == p.tailAdvances)
  {
    hide EncodeEvent, ProduceAll, ValidEvent, Size, Room;
    var reserve := Reserve(e);
    var p1 := Produce(p, reserve);
    assert p1 == p.(reserved := Some(e));
    assert Room(p1, e) == Room(p, e) by { SameStarts(p, p1, e); }
    ProduceOne(p, reserve);
    if Room(p, e) {
      var rest := FillAndPublish(p1, e);
      steps := [reserve] + rest;
      ProduceMore(p, [reserve], rest);
    } else {
      Sizes(p, e);
      var advance := AdvanceTail(|p.log|);
      var p2 := Produce(p1, advance);
      ProduceOne(p1, advance);
      RoomMade(p, p2, e);
      var rest := FillAndPublish(p2, e);
      steps := [reserve] + ([advance] + rest);
      ProduceMore(p1, [advance], rest);
      ProduceMore(p, [reserve], [advance] + rest);
    }
  }

  lemma Sizes(p: Producer, e: Event)
    requires Shape(p) && ValidEvent(e, p.cap)
    ensures 77 + |e.eventType| + |e.payload| <= p.cap
    ensures !Room(p, e) ==> p.tailIdx < |p.log|
  {
  }

  lemma SameStarts(p: Producer, p': Producer, e: Event)
    requires Shape(p) && Shape(p') && p'.starts == p.starts && p'.tailIdx == p.tailIdx && p'.cap == p.cap && p'.log == p.log
    ensures Room(p, e) == Room(p', e)
  {
  }

  /** With the tail at the write position the whole ring is room. */
  lemma RoomMade(p: Producer, p': Producer, e: Event)
    requires Shape(p) && Shape(p') && ValidEvent(e, p.cap)
    requires p'.starts == p.starts && p'.tailIdx == |p.log| && p'.cap == p.cap && p'.log == p.log
    ensures Room(p', e)
  {
  }
}
