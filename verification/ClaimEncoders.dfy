/** The two claim encoders as they run: one patches its buffer afterwards, the other grows three. */
module ClaimEncoders {
  import opened Bytes
  import opened Utf16
  import opened SidWire
  import opened Claims

  // ---- the security-descriptor encoder ----

  /** Slots before their pointers are known. */
  function Blank(vs: seq<Value>): (b: seq<byte>)
    requires forall i :: 0 <= i < |vs| ==> TypedValue(vs[i])
    ensures |b| == SlotsSize(vs)
  {
    if vs == [] then []
    else
      var v := vs[|vs| - 1];
      Blank(vs[..|vs| - 1]) + (if Inline(Kind(v)) then InlineBytes(v) else Zeros(4))
  }

  lemma {:induction false} InlineBlank(vs: seq<Value>, kind: nat, data0: nat)
    requires Uniform(vs, kind) && Inline(kind) && forall i :: 0 <= i < |vs| ==> TypedValue(vs[i])
    ensures Blank(vs) == Slots(vs, data0) && Datas(vs) == []
  {
    if vs != [] {
      InlineBlank(vs[..|vs| - 1], kind, data0);
    }
  }

  lemma {:induction false} IndirectBlank(vs: seq<Value>, kind: nat)
    requires Uniform(vs, kind) && !Inline(kind) && forall i :: 0 <= i < |vs| ==> TypedValue(vs[i])
    ensures SlotsSize(vs) == 4 * |vs| && Blank(vs) == Zeros(4 * |vs|)
  {
    if vs != [] {
      IndirectBlank(vs[..|vs| - 1], kind);
    }
  }

  /** Data waiting for its place, and the slot that will point to it. */
  datatype Pending = Pending(slot: nat, data: seq<byte>)

  /** Every value's data waits, for the slots that start at `start`. */
  predicate Waiting(pending: seq<Pending>, vs: seq<Value>, start: nat) {
    |pending| == |vs| && forall i :: 0 <= i < |vs| ==> pending[i] == Pending(start + 4 * i, Data(vs[i]))
  }

  /** `ClaimAttribute::encode`: fails exactly on no values, on mixed ones, and on too many. */
  method EncodeAttribute(name: string, flags: nat, values: seq<Value>) returns (r: Option<seq<byte>>)
    requires flags < U32 && forall i :: 0 <= i < |values| ==> TypedValue(values[i])
    ensures r.Some? <==> values != [] && Uniform(values, Kind(values[0])) && |values| < U32
    ensures r.Some? ==> r.value == NameFirst(Claim(name, Kind(values[0]), flags, values))
  {
    hide TypedValue, NameFirst, Kind;
    if values == [] {
      return None;
    }
    var kind, i := Kind(values[0]), 0;
    while i < |values|
      invariant i <= |values| && Uniform(values[..i], kind)
    {
      if Kind(values[i]) != kind {
        assert !Uniform(values, kind);
        return None;
      }
      i := i + 1;
    }
    assert values[..i] == values;
    if |values| > U32 - 1 {
      return None;
    }
    KindKnown(values[0]);
    var p := EncodeUniform(Claim(name, kind, flags, values));
    return Some(p);
  }

  lemma KindKnown(v: Value)
    ensures Kind(v) in KINDS
  {
  }

  method EncodeUniform(c: Claim) returns (p: seq<byte>)
    requires Typed(c) && c.values != []
    ensures p == NameFirst(c)
  {
    hide TypedValue, Slots, Datas, Table, SlotsSize, CStr, Header, Blank;
    var n := |c.values|;
    ghost var slots0 := Prefix(c) + |CStr(c.name)|;
    var body, pending := BlankSlots(c);
    p := FillSlots(c, Zeros(Prefix(c)) + CStr(c.name), body, pending);
    p := FillFront(c, p);
  }

  /** The slots with inline values in place and pointers still zero, and the data that must follow. */
  method BlankSlots(c: Claim) returns (body: seq<byte>, pending: seq<Pending>)
    requires Typed(c)
    ensures body == Blank(c.values)
    ensures Inline(c.kind) ==> pending == []
    ensures !Inline(c.kind) ==> Waiting(pending, c.values, Prefix(c) + |CStr(c.name)|)
  {
    hide TypedValue, InlineBytes, Data, CStr, Kind;
    body, pending := [], [];
    var i, start := 0, Prefix(c) + |CStr(c.name)|;
    while i < |c.values|
      invariant i <= |c.values| && body == Blank(c.values[..i])
      invariant Inline(c.kind) ==> pending == []
      invariant !Inline(c.kind) ==> |body| == 4 * i && Waiting(pending, c.values[..i], start)
    {
      assert c.values[..i + 1][..i] == c.values[..i];
      var slot, v := start + |body|, c.values[i];
      assert Kind(v) == c.kind;
      if Inline(c.kind) {
        body := body + InlineBytes(v);
      } else {
        body := body + Zeros(4);
        pending := pending + [Pending(slot, Data(v))];
      }
      i := i + 1;
    }
    assert c.values[..i] == c.values;
  }

  /** Appends the pending data, pointing each slot at its own. */
  method FillSlots(c: Claim, front: seq<byte>, body: seq<byte>, pending: seq<Pending>) returns (p: seq<byte>)
    requires Typed(c) && |front| == Prefix(c) + |CStr(c.name)| && body == Blank(c.values)
    requires Inline(c.kind) ==> pending == []
    requires !Inline(c.kind) ==> Waiting(pending, c.values, |front|)
    ensures p == front + Slots(c.values, |front| + SlotsSize(c.values)) + Datas(c.values)
  {
    hide TypedValue, InlineBytes, Data, CStr, Kind, Blank, ToLE, Slots, Datas, SlotsSize;
    p := front + body;
    var vs := c.values;
    ghost var data0 := |front| + SlotsSize(vs);
    if Inline(c.kind) {
      InlineBlank(vs, c.kind, data0);
      return;
    }
    IndirectBlank(vs, c.kind);
    var j := 0;
    assert vs[..0] == [];
    Nothing(0, data0);
    while j < |pending|
      invariant j <= |pending|
      invariant p == front + Slots(vs[..j], data0) + Zeros(4 * (|vs| - j)) + Datas(vs[..j])
    {
      SlotsWide(vs[..j], c.kind);
      OneMore(vs, j, 0, data0);
      IndirectSlot(vs[j], data0 + |Datas(vs[..j])|);
      var at := |p|;
      p := PointAndAppend(p, front + Slots(vs[..j], data0), |vs| - j, Datas(vs[..j]), at, pending[j].data, pending[j].slot);
      j := j + 1;
    }
    assert vs[..j] == vs;
  }

  lemma IndirectSlot(v: Value, dataAt: nat)
    requires TypedValue(v) && !Inline(Kind(v))
    ensures Slot(v, dataAt) == ToLE(dataAt, 4)
  {
  }

  /** Points the first blank slot at the end of the buffer and puts its data there. */
  method PointAndAppend(p: seq<byte>, ghost done: seq<byte>, ghost blanks: nat, ghost datas: seq<byte>, at: nat, data: seq<byte>, slot: nat)
    returns (q: seq<byte>)
    requires blanks > 0 && p == done + Zeros(4 * blanks) + datas && slot == |done|
    ensures q == done + ToLE(at, 4) + Zeros(4 * (blanks - 1)) + (datas + data)
  {
    ghost var rest := Zeros(4 * (blanks - 1)) + datas;
    assert p == done + Zeros(4) + rest;
    OverwriteMiddle(done, Zeros(4), rest, ToLE(at, 4));
    q := Overwrite(p, slot, ToLE(at, 4)) + data;
  }

  lemma SlotsWide(vs: seq<Value>, kind: nat)
    requires Uniform(vs, kind) && !Inline(kind) && forall i :: 0 <= i < |vs| ==> TypedValue(vs[i])
    ensures SlotsSize(vs) == 4 * |vs|
  {
    IndirectBlank(vs, kind);
  }

  /** Backfills the header and then the value offsets. */
  method FillFront(c: Claim, payload: seq<byte>) returns (p: seq<byte>)
    requires Typed(c) && Prefix(c) <= |payload| && payload[..Prefix(c)] == Zeros(Prefix(c))
    ensures p == Header(c, Prefix(c)) + Table(c.values, Prefix(c) + |CStr(c.name)|) + payload[Prefix(c)..]
  {
    hide TypedValue, CStr, Kind, ToLE, Header, Table, SlotsSize, Slots, Datas;
    var n, vs, start := |c.values|, c.values, Prefix(c) + |CStr(c.name)|;
    ghost var h, rest := Header(c, Prefix(c)), payload[Prefix(c)..];
    p := FillFixed(c, payload);
    var i, slot := 0, start;
    assert vs[..0] == [];
    Nothing(start, 0);
    while i < n
      invariant i <= n && slot == start + SlotsSize(vs[..i])
      invariant p == h + Table(vs[..i], start) + Zeros(4 * (n - i)) + rest
    {
      OneMore(vs, i, start, 0);
      ghost var done := h + Table(vs[..i], start);
      p := PointAndAppend(p, done, n - i, rest, slot, [], 16 + 4 * i);
      assert done + ToLE(slot, 4) == h + Table(vs[..i + 1], start) && rest + [] == rest;
      slot := slot + Width(Kind(vs[i]));
      i := i + 1;
    }
    assert vs[..i] == vs;
  }

  method FillFixed(c: Claim, payload: seq<byte>) returns (p: seq<byte>)
    requires Typed(c) && Prefix(c) <= |payload| && payload[..Prefix(c)] == Zeros(Prefix(c))
    ensures p == Header(c, Prefix(c)) + Zeros(4 * |c.values|) + payload[Prefix(c)..]
  {
    hide TypedValue, ToLE, Uniform, Overwrite;
    ghost var tail := Zeros(4 * |c.values|) + payload[Prefix(c)..];
    ZeroFront(payload, |c.values|);
    var a, k, f, n := ToLE(Prefix(c), 4), ToLE(c.kind, 2), ToLE(c.flags, 4), ToLE(|c.values|, 4);
    ghost var x3 := Zeros(4) + tail;
    ghost var x2 := Zeros(2) + (Zeros(4) + x3);
    ghost var x1 := Zeros(2) + x2;
    assert payload == [] + Zeros(4) + x1;
    OverwriteMiddle([], Zeros(4), x1, a);
    p := Overwrite(payload, 0, a);
    assert p == a + Zeros(2) + x2;
    OverwriteMiddle(a, Zeros(2), x2, k);
    p := Overwrite(p, 4, k);
    assert p == (a + k + Zeros(2)) + Zeros(4) + x3;
    OverwriteMiddle(a + k + Zeros(2), Zeros(4), x3, f);
    p := Overwrite(p, 8, f);
    assert p == (a + k + Zeros(2) + f) + Zeros(4) + tail;
    OverwriteMiddle(a + k + Zeros(2) + f, Zeros(4), tail, n);
    p := Overwrite(p, 12, n);
    assert Zeros(2) == [0, 0];
  }

  lemma ZeroFront(payload: seq<byte>, n: nat)
    requires 16 + 4 * n <= |payload| && payload[..16 + 4 * n] == Zeros(16 + 4 * n)
    ensures payload
      == Zeros(4) + (Zeros(2) + (Zeros(2) + (Zeros(4) + (Zeros(4) + (Zeros(4 * n) + payload[16 + 4 * n..])))))
  {
    assert payload == payload[..16 + 4 * n] + payload[16 + 4 * n..];
    assert Zeros(16 + 4 * n) == Zeros(4) + (Zeros(2) + (Zeros(2) + (Zeros(4) + (Zeros(4) + Zeros(4 * n)))));
  }

  // ---- the token encoder ----

  predicate TextOk(v: Value) {
    v.Text? ==> NulFree(v.s)
  }

  predicate NulFreeClaim(c: Claim) {
    NulFree(c.name) && forall i :: 0 <= i < |c.values| ==> TextOk(c.values[i])
  }

  /** `encode_claim` up to its final check: fails exactly on an embedded NUL or an offset past 32 bits. */
  method EncodeTokenClaim(c: Claim) returns (r: Option<seq<byte>>)
    requires Typed(c)
    ensures r.Some? <==> NulFreeClaim(c) && NameLastAt(c) < U32
    ensures r.Some? ==> r.value == NameLast(c)
  {
    hide TypedValue, Slots, Datas, Table, SlotsSize, CStr, Header, Data, Slot, InlineBytes, ToLE;
    if !NulFree(c.name) {
      return None;
    }
    var vs, n, slots0 := c.values, |c.values|, Prefix(c);
    var data0 := slots0 + n * Width(c.kind);
    SlotsSpan(vs, c.kind);
    var table, slots, data, i := [], [], [], 0;
    Nothing(slots0, data0);
    assert vs[..0] == [];
    while i < n
      invariant i <= n && table == Table(vs[..i], slots0) && slots == Slots(vs[..i], data0) && data == Datas(vs[..i])
      invariant forall k :: 0 <= k < i ==> TextOk(vs[k])
    {
      var v, at := vs[i], slots0 + i * Width(c.kind);
      assert Kind(v) == c.kind;
      OneMore(vs, i, slots0, data0);
      SlotsSpan(vs[..i], c.kind);
      Within(c, i);
      if at >= U32 {
        return None;
      }
      if !Inline(c.kind) {
        if data0 + |data| >= U32 || !TextOk(v) || (v.Octets? && |v.data| >= U32) {
          return None;
        }
      }
      table := table + ToLE(at, 4);
      slots := slots + Slot(v, data0 + |data|);
      data := data + Data(v);
      InlineTextOk(v);
      i := i + 1;
    }
    assert vs[..n] == vs;
    var nameAt := data0 + |data|;
    if nameAt >= U32 {
      return None;
    }
    return Some(Header(c, nameAt) + table + slots + data + CStr(c.name));
  }

  lemma Nothing(slots0: nat, data0: nat)
    ensures Table([], slots0) == [] && Slots([], data0) == [] && Datas([]) == [] && SlotsSize([]) == 0
  {
  }

  lemma InlineTextOk(v: Value)
    ensures Inline(Kind(v)) ==> TextOk(v) && !v.Octets?
  {
  }

  lemma OneMore(vs: seq<Value>, i: nat, slots0: nat, data0: nat)
    requires i < |vs| && forall j :: 0 <= j < |vs| ==> TypedValue(vs[j])
    ensures Table(vs[..i + 1], slots0) == Table(vs[..i], slots0) + ToLE(slots0 + SlotsSize(vs[..i]), 4)
    ensures Slots(vs[..i + 1], data0) == Slots(vs[..i], data0) + Slot(vs[i], data0 + |Datas(vs[..i])|)
    ensures Datas(vs[..i + 1]) == Datas(vs[..i]) + Data(vs[i])
    ensures SlotsSize(vs[..i + 1]) == SlotsSize(vs[..i]) + Width(Kind(vs[i]))
  {
    hide TypedValue, Slot, Data, ToLE;
    assert vs[..i + 1][..i] == vs[..i];
  }

  lemma {:induction false} SlotsSpan(vs: seq<Value>, kind: nat)
    requires Uniform(vs, kind)
    ensures SlotsSize(vs) == |vs| * Width(kind)
  {
    if vs != [] {
      SlotsSpan(vs[..|vs| - 1], kind);
      assert Kind(vs[|vs| - 1]) == kind;
    }
  }

  lemma {:induction false} Grows(vs: seq<Value>, i: nat)
    requires i <= |vs|
    ensures |Datas(vs[..i])| <= |Datas(vs)| && SlotsSize(vs[..i]) <= SlotsSize(vs)
    decreases |vs|
  {
    if i < |vs| {
      assert vs[..|vs| - 1][..i] == vs[..i];
      Grows(vs[..|vs| - 1], i);
    } else {
      assert vs[..i] == vs;
    }
  }

  /** No offset or length in the entry is past the name's offset. */
  lemma Within(c: Claim, i: nat)
    requires Typed(c) && i < |c.values|
    ensures var vs := c.values;
      && Prefix(c) + SlotsSize(vs[..i]) <= NameLastAt(c)
      && Prefix(c) + SlotsSize(vs) + |Datas(vs[..i])| <= NameLastAt(c)
      && (vs[i].Octets? ==> |vs[i].data| <= NameLastAt(c))
  {
    hide TypedValue;
    Grows(c.values, i);
    Grows(c.values, i + 1);
    assert c.values[..i + 1][..i] == c.values[..i];
  }
}
