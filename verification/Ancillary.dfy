/** Ancillary data on a Unix socket: control messages, and the descriptors they hand over. */
module Ancillary {
  import opened Bytes

  const HEADER := 16
  const SOL_KACS := 4096
  const SCM_TOKEN := 1
  const SOL_SOCKET := 1
  const SCM_RIGHTS := 1
  const TWO32 := 0x1_0000_0000

  predicate IsI32(n: int) {
    -0x8000_0000 <= n < 0x8000_0000
  }

  function Int32(n: int): (s: seq<byte>)
    requires IsI32(n)
    ensures |s| == 4
  {
    ToLE(Wrap(n, TWO32), 4)
  }

  function ReadInt32(s: seq<byte>): (n: int)
    requires |s| == 4
    ensures IsI32(n)
  {
    LeInverse(s);
    PowValues();
    Signed(FromLE(s), TWO32)
  }

  lemma Int32RoundTrip(n: int)
    requires IsI32(n)
    ensures ReadInt32(Int32(n)) == n
  {
    PowValues();
    LeRoundTrip(Wrap(n, TWO32), 4);
  }

  /** `cmsg_align`: up to a multiple of the word size. */
  function Align(n: nat): (m: nat)
    ensures n <= m < n + 8 && m % 8 == 0
  {
    (n + 7) / 8 * 8
  }

  datatype Message = Message(level: int, kind: int, data: seq<byte>)

  predicate Typed(m: Message) {
    IsI32(m.level) && IsI32(m.kind) && HEADER + |m.data| < 0x1_0000_0000_0000_0000
  }

  function HeaderOf(m: Message): (s: seq<byte>)
    requires Typed(m)
    ensures |s| == HEADER
  {
    ToLE(HEADER + |m.data|, 8) + Int32(m.level) + Int32(m.kind)
  }

  /** One control message, padded to its `CMSG_SPACE`. */
  function Encode(m: Message): (s: seq<byte>)
    requires Typed(m)
    ensures |s| == HEADER + Align(|m.data|)
  {
    HeaderOf(m) + m.data + Zeros(Align(|m.data|) - |m.data|)
  }

  function EncodeAll(ms: seq<Message>): seq<byte>
    requires forall i :: 0 <= i < |ms| ==> Typed(ms[i])
  {
    if ms == [] then [] else Encode(ms[0]) + EncodeAll(ms[1..])
  }

  /** `push_cmsg`: grow by the space, then fill in header and data. */
  method PushCmsg(buf: seq<byte>, m: Message) returns (out: seq<byte>)
    requires Typed(m)
    ensures out == buf + Encode(m)
  {
    hide HeaderOf, Align, Zeros, Overwrite;
    var start, n, space := |buf|, |m.data|, Align(|m.data|);
    out := buf + Zeros(HEADER + space);
    var h := HeaderOf(m);
    ghost var pad := Zeros(space - n);
    SplitZeros(HEADER, space);
    SplitZeros(n, space - n);
    assert out == buf + Zeros(HEADER) + Zeros(space);
    OverwriteMiddle(buf, Zeros(HEADER), Zeros(space), h);
    out := Overwrite(out, start, h);
    assert out == (buf + h) + Zeros(n) + pad;
    OverwriteMiddle(buf + h, Zeros(n), pad, m.data);
    out := Overwrite(out, start + HEADER, m.data);
    assert buf + h + m.data + pad == buf + (h + m.data + pad);
  }

  lemma SplitZeros(a: nat, b: nat)
    ensures Zeros(a + b) == Zeros(a) + Zeros(b)
  {
  }

  // ---- walking a received buffer ----

  predicate WholeMessage(s: seq<byte>) {
    |s| >= HEADER && HEADER <= FromLE(s[..8]) <= |s|
  }

  function First(s: seq<byte>): Message
    requires WholeMessage(s)
  {
    Message(ReadInt32(s[8..12]), ReadInt32(s[12..16]), s[HEADER..FromLE(s[..8])])
  }

  /** What is left after the first message; nothing when its padding is cut off. */
  function Rest(s: seq<byte>): (r: seq<byte>)
    requires WholeMessage(s)
    ensures |r| < |s|
  {
    var next := Align(FromLE(s[..8]));
    if next >= |s| then [] else s[next..]
  }

  /** `parse_control`: every message up to the first malformed one. */
  function Parse(s: seq<byte>): seq<Message>
    decreases |s|
  {
    if !WholeMessage(s) then [] else [First(s)] + Parse(Rest(s))
  }

  lemma HeaderFields(m: Message)
    requires Typed(m)
    ensures var h := HeaderOf(m);
      FromLE(h[..8]) == HEADER + |m.data| && ReadInt32(h[8..12]) == m.level && ReadInt32(h[12..16]) == m.kind
  {
    hide ToLE, FromLE, Int32, ReadInt32;
    PowValues();
    var h := HeaderOf(m);
    LeRoundTrip(HEADER + |m.data|, 8);
    Int32RoundTrip(m.level);
    Int32RoundTrip(m.kind);
    assert h[..8] == ToLE(HEADER + |m.data|, 8) && h[8..12] == Int32(m.level) && h[12..16] == Int32(m.kind);
  }

  lemma AlignShift(n: nat)
    ensures Align(HEADER + n) == HEADER + Align(n)
  {
  }

  lemma FrontSlices(h: seq<byte>, rest: seq<byte>)
    requires |h| == HEADER
    ensures var s := h + rest;
      s[..8] == h[..8] && s[8..12] == h[8..12] && s[12..16] == h[12..16] && s[HEADER..] == rest
  {
  }

  lemma DataInside(data: seq<byte>, pad: seq<byte>, rest: seq<byte>)
    ensures var s := data + (pad + rest); s[..|data|] == data && s[|data| + |pad|..] == rest
  {
  }

  /** The parts of an encoded message with `rest` after it. */
  lemma MessageSlices(m: Message, rest: seq<byte>)
    requires Typed(m)
    ensures var s, n := Encode(m) + rest, HEADER + |m.data|;
      && FromLE(s[..8]) == n && ReadInt32(s[8..12]) == m.level && ReadInt32(s[12..16]) == m.kind
      && s[HEADER..n] == m.data && s[HEADER + Align(|m.data|)..] == rest
  {
    hide FromLE, ReadInt32, HeaderOf, Zeros, Align;
    var s, h := Encode(m) + rest, HeaderOf(m);
    var pad := Zeros(Align(|m.data|) - |m.data|);
    var tail := m.data + (pad + rest);
    HeaderFields(m);
    FrontSlices(h, tail);
    DataInside(m.data, pad, rest);
    Nested(h, m.data, pad, rest);
    Reslice(s, HEADER, |m.data|);
    Reslice(s, HEADER, |m.data| + |pad|);
  }

  lemma Nested(a: seq<byte>, b: seq<byte>, c: seq<byte>, d: seq<byte>)
    ensures a + b + c + d == a + (b + (c + d))
  {
    assert a + b + c + d == (a + b) + (c + d);
  }

  lemma Reslice(s: seq<byte>, i: nat, j: nat)
    requires i + j <= |s|
    ensures s[i..][j..] == s[i + j..] && s[i..][..j] == s[i..i + j]
  {
  }

  lemma HeaderReads(m: Message, rest: seq<byte>)
    requires Typed(m)
    ensures var s := Encode(m) + rest; WholeMessage(s) && First(s) == m && Rest(s) == rest
  {
    hide FromLE, ReadInt32, Encode, Align;
    MessageSlices(m, rest);
    AlignShift(|m.data|);
    AlignUp(|m.data|);
    var s := Encode(m) + rest;
    assert |s| == HEADER + Align(|m.data|) + |rest| by { EncodedLength(m); }
  }

  lemma AlignUp(n: nat)
    ensures n <= Align(n)
  {
  }

  lemma EncodedLength(m: Message)
    requires Typed(m)
    ensures |Encode(m)| == HEADER + Align(|m.data|)
  {
  }

  lemma {:induction false} ParseInverts(ms: seq<Message>)
    requires forall i :: 0 <= i < |ms| ==> Typed(ms[i])
    ensures Parse(EncodeAll(ms)) == ms
  {
    hide WholeMessage, First, Rest, Encode;
    if ms == [] {
      EmptyIsNoMessage();
    } else {
      HeaderReads(ms[0], EncodeAll(ms[1..]));
      ParseInverts(ms[1..]);
    }
  }

  lemma EmptyIsNoMessage()
    ensures !WholeMessage([])
  {
  }

  // ---- sending ----

  predicate AllI32(fds: seq<int>) {
    forall i :: 0 <= i < |fds| ==> IsI32(fds[i])
  }

  function Ints(fds: seq<int>): (s: seq<byte>)
    requires AllI32(fds)
    ensures |s| == 4 * |fds|
  {
    if fds == [] then [] else Ints(fds[..|fds| - 1]) + Int32(fds[|fds| - 1])
  }

  /** A token travels at level 4096 (`SOL_KACS`) as kind 1. */
  function TokenPart(token: int): (ms: seq<Message>)
    requires IsI32(token)
    ensures forall i :: 0 <= i < |ms| ==> Typed(ms[i])
  {
    if token >= 0 then [Message(4096, 1, Int32(token))] else []
  }

  /** Descriptors travel at level 1 (`SOL_SOCKET`) as kind 1 (`SCM_RIGHTS`). */
  function RightsPart(fds: seq<int>): (ms: seq<Message>)
    requires AllI32(fds) && |fds| <= 253
    ensures forall i :: 0 <= i < |ms| ==> Typed(ms[i])
  {
    if fds != [] then [Message(1, 1, Ints(fds))] else []
  }

  /** The messages of one send: the token when there is one, then the descriptors when there are any. */
  function Attached(token: int, fds: seq<int>): (ms: seq<Message>)
    requires IsI32(token) && AllI32(fds) && |fds| <= 253
    ensures forall i :: 0 <= i < |ms| ==> Typed(ms[i])
  {
    TokenPart(token) + RightsPart(fds)
  }

  /** `build_send_control`. */
  method BuildSendControl(token: int, fds: seq<int>) returns (control: seq<byte>)
    requires IsI32(token) && AllI32(fds) && |fds| <= 253
    ensures control == EncodeAll(Attached(token, fds))
  {
    hide Encode, Int32;
    control := [];
    if token >= 0 {
      control := PushCmsg(control, Message(SOL_KACS, SCM_TOKEN, Int32(token)));
    }
    if fds != [] {
      var data, i := [], 0;
      while i < |fds|
        invariant i <= |fds| && data == Ints(fds[..i])
      {
        assert fds[..i + 1][..i] == fds[..i];
        data := data + Int32(fds[i]);
        i := i + 1;
      }
      assert fds[..i] == fds;
      control := PushCmsg(control, Message(SOL_SOCKET, SCM_RIGHTS, data));
    }
    var ms := Attached(token, fds);
    assert |ms| >= 1 ==> EncodeAll(ms) == Encode(ms[0]) + EncodeAll(ms[1..]);
    assert |ms| == 2 ==> EncodeAll(ms[1..]) == Encode(ms[1]) + EncodeAll(ms[1..][1..]);
  }

  // ---- receiving ----

  /** A descriptor as it arrives. */
  datatype Arrival = Token(fd: int) | Right(fd: int)

  function ReadInts(data: seq<byte>): (fds: seq<int>)
    ensures |fds| == |data| / 4
    ensures forall i :: 0 <= i < |fds| ==> fds[i] == ReadInt32(data[4 * i..4 * i + 4])
  {
    seq(|data| / 4, i requires 0 <= i < |data| / 4 => ReadInt32(data[4 * i..4 * i + 4]))
  }

  function Arrivals(m: Message, fds: seq<int>): (r: seq<Arrival>)
    ensures |r| <= |fds|
  {
    match (m.level, m.kind)
    case (4096, 1) => AsTokens(fds)
    case (1, 1) => AsRights(fds)
    case _ => []
  }

  function AsTokens(fds: seq<int>): (r: seq<Arrival>)
    ensures |r| == |fds|
  {
    seq(|fds|, i requires 0 <= i < |fds| => Token(fds[i]))
  }

  function AsRights(fds: seq<int>): (r: seq<Arrival>)
    ensures |r| == |fds|
  {
    seq(|fds|, i requires 0 <= i < |fds| => Right(fds[i]))
  }

  /** Every descriptor the messages hold, in order. */
  function AllArrivals(ms: seq<Message>): seq<Arrival> {
    if ms == [] then []
    else AllArrivals(ms[..|ms| - 1]) + Arrivals(ms[|ms| - 1], ReadInts(ms[|ms| - 1].data))
  }

  /** What became of the arrivals: the token kept, the descriptors handed over, and those closed. */
  datatype Outcome = Outcome(token: int, kept: seq<int>, closed: seq<int>)

  function Take(o: Outcome, a: Arrival, cap: nat): Outcome {
    if a.Token? && o.token < 0 then o.(token := a.fd)
    else if a.Right? && |o.kept| < cap then o.(kept := o.kept + [a.fd])
    else o.(closed := o.closed + [a.fd])
  }

  function Settle(arrivals: seq<Arrival>, cap: nat): Outcome {
    if arrivals == [] then Outcome(-1, [], [])
    else Take(Settle(arrivals[..|arrivals| - 1], cap), arrivals[|arrivals| - 1], cap)
  }

  function Fds(arrivals: seq<Arrival>): (r: seq<int>)
    ensures |r| == |arrivals|
  {
    seq(|arrivals|, i requires 0 <= i < |arrivals| => arrivals[i].fd)
  }

  function Rights(arrivals: seq<Arrival>): seq<int> {
    if arrivals == [] then []
    else Rights(arrivals[..|arrivals| - 1]) + (if arrivals[|arrivals| - 1].Right? then [arrivals[|arrivals| - 1].fd] else [])
  }

  function Tokens(arrivals: seq<Arrival>): seq<int> {
    if arrivals == [] then []
    else Tokens(arrivals[..|arrivals| - 1]) + (if arrivals[|arrivals| - 1].Token? then [arrivals[|arrivals| - 1].fd] else [])
  }

  predicate NonNegative(arrivals: seq<Arrival>) {
    forall i :: 0 <= i < |arrivals| ==> arrivals[i].fd >= 0
  }

  function TokenKept(o: Outcome): multiset<int> {
    if o.token >= 0 then multiset{o.token} else multiset{}
  }

  /** All the descriptors an outcome accounts for. */
  function Total(o: Outcome): multiset<int> {
    TokenKept(o) + multiset(o.kept) + multiset(o.closed)
  }

  lemma TakeAccounts(o: Outcome, a: Arrival, cap: nat)
    requires a.fd >= 0
    ensures Total(Take(o, a, cap)) == Total(o) + multiset{a.fd}
  {
    var k, c, m := multiset(o.kept), multiset(o.closed), multiset{a.fd};
    OneMore(o.kept, a.fd);
    OneMore(o.closed, a.fd);
    Regroup(TokenKept(o), k, c, m);
    var o' := Take(o, a, cap);
    if a.Token? && o.token < 0 {
      assert Total(o') == m + k + c && Total(o) == k + c;
    } else if a.Right? && |o.kept| < cap {
      assert Total(o') == TokenKept(o) + (k + m) + c;
    } else {
      assert Total(o') == TokenKept(o) + k + (c + m);
    }
  }

  lemma Regroup(t: multiset<int>, k: multiset<int>, c: multiset<int>, m: multiset<int>)
    ensures t + (k + m) + c == t + k + c + m && t + k + (c + m) == t + k + c + m && m + k + c == k + c + m
  {
  }

  lemma OneMore(s: seq<int>, x: int)
    ensures multiset(s + [x]) == multiset(s) + multiset{x}
  {
  }

  lemma {:induction false} NothingLost(arrivals: seq<Arrival>, cap: nat)
    requires NonNegative(arrivals)
    ensures multiset(Fds(arrivals)) == Total(Settle(arrivals, cap))
  {
    hide Take;
    if arrivals == [] {
      assert Fds(arrivals) == [];
    } else {
      hide Total;
      var front, a := arrivals[..|arrivals| - 1], arrivals[|arrivals| - 1];
      NothingLost(front, cap);
      TakeAccounts(Settle(front, cap), a, cap);
      assert Fds(arrivals) == Fds(front) + [a.fd];
    }
  }

  lemma {:induction false} FirstComeFirstServed(arrivals: seq<Arrival>, cap: nat)
    requires NonNegative(arrivals)
    ensures var o, tokens, rights := Settle(arrivals, cap), Tokens(arrivals), Rights(arrivals);
      && o.token == (if tokens == [] then -1 else tokens[0])
      && (tokens != [] ==> tokens[0] >= 0)
      && o.kept == (if |rights| <= cap then rights else rights[..cap])
      && (o.closed == [] <==> |tokens| <= 1 && |rights| <= cap)
  {
    if arrivals != [] {
      var front, a := arrivals[..|arrivals| - 1], arrivals[|arrivals| - 1];
      FirstComeFirstServed(front, cap);
      assert a.fd >= 0;
      var rights := Rights(front);
      assert |rights| >= cap && a.Right? ==> Rights(arrivals)[..cap] == rights[..cap];
    }
  }

  /**
   * Nothing leaks and nothing is closed twice: the token, the descriptors handed over and those
   * closed are together exactly what arrived. The token is the first one, and the descriptors handed
   * over are the first ones that fit, in order.
   */
  lemma Conservation(arrivals: seq<Arrival>, cap: nat)
    requires NonNegative(arrivals)
    ensures var o := Settle(arrivals, cap);
      && multiset(Fds(arrivals)) == TokenKept(o) + multiset(o.kept) + multiset(o.closed)
      && o.token == (if Tokens(arrivals) == [] then -1 else Tokens(arrivals)[0])
      && o.kept == (if |Rights(arrivals)| <= cap then Rights(arrivals) else Rights(arrivals)[..cap])
      && (o.closed == [] <==> |Tokens(arrivals)| <= 1 && |Rights(arrivals)| <= cap)
  {
    NothingLost(arrivals, cap);
    FirstComeFirstServed(arrivals, cap);
  }

  /** `struct peios_socket_message`, and the descriptors `close` was called on. */
  class SocketMessage {
    var tokenFd: int
    const fds: array?<int>
    const fdCap: nat
    var fdCount: nat
    var truncated: bool
    var closed: seq<int>

    ghost predicate Valid()
      reads this
    {
      (fds != null ==> fdCap <= fds.Length) && fdCount <= fdCap && (fds == null ==> fdCount == 0)
    }

    /** How many descriptors the caller can take. */
    function Capacity(): nat {
      if fds == null then 0 else fdCap
    }

    ghost function State(): Outcome
      requires Valid()
      reads this, fds
    {
      Outcome(tokenFd, if fds == null then [] else fds[..fdCount], closed)
    }

    constructor (buffer: array?<int>, cap: nat)
      requires buffer != null ==> cap <= buffer.Length
      ensures Valid() && fds == buffer && fdCap == cap && closed == []
    {
      tokenFd, fds, fdCap, fdCount, truncated, closed := -1, buffer, cap, 0, false, [];
    }

    method Close(fd: int)
      modifies this
      ensures closed == old(closed) + [fd] && truncated && fdCount == old(fdCount) && tokenFd == old(tokenFd)
    {
      closed := closed + [fd];
      truncated := true;
    }

    method TakeOne(a: Arrival)
      requires Valid()
      modifies this, fds
      ensures Valid() && State() == Take(old(State()), a, Capacity())
      ensures truncated == (old(truncated) || closed != old(closed))
    {
      match a
      case Token(fd) =>
        if tokenFd < 0 {
          tokenFd := fd;
        } else {
          Close(fd);
        }
      case Right(fd) =>
        if fdCount < fdCap && fds != null {
          fds[fdCount] := fd;
          fdCount := fdCount + 1;
        } else {
          Close(fd);
        }
    }

    /** `deliver_control`: afterwards the truncation flag says whether anything was closed. */
    method Deliver(buf: seq<byte>)
      requires Valid() && closed == []
      modifies this, fds
      ensures Valid() && State() == Settle(AllArrivals(Parse(buf)), Capacity())
      ensures truncated <==> closed != []
    {
      hide Parse, Take, WholeMessage, First, Rest, AllArrivals, Arrivals, ReadInts, FromLE;
      tokenFd, fdCount, truncated := -1, 0, false;
      ghost var ms: seq<Message>, all := [], Parse(buf);
      var rest := buf;
      NoArrivals();
      while |rest| >= HEADER && HEADER <= FromLE(rest[..8]) <= |rest|
        invariant Valid()
        invariant ms + Parse(rest) == all
        invariant State() == Settle(AllArrivals(ms), Capacity())
        invariant truncated <==> closed != []
        decreases |rest|
      {
        ParseStep(rest);
        var m := First(rest);
        DeliverMessage(m, AllArrivals(ms));
        ArrivalsMore(ms, m);
        ms := ms + [m];
        rest := Rest(rest);
      }
      ParseStop(rest);
      assert ms == all;
    }

    /** The descriptors in a message, sorted by its level and kind. */
    static method Sorted(m: Message) returns (list: seq<Arrival>)
      ensures list == Arrivals(m, ReadInts(m.data))
    {
      hide ReadInts;
      list := [];
      if m.level == SOL_KACS && m.kind == SCM_TOKEN {
        list := AsTokens(ReadInts(m.data));
      } else if m.level == SOL_SOCKET && m.kind == SCM_RIGHTS {
        list := AsRights(ReadInts(m.data));
      }
    }

    method DeliverMessage(m: Message, ghost before: seq<Arrival>)
      requires Valid() && State() == Settle(before, Capacity()) && (truncated <==> closed != [])
      modifies this, fds
      ensures Valid() && State() == Settle(before + Arrivals(m, ReadInts(m.data)), Capacity())
      ensures truncated <==> closed != []
    {
      hide Take, ReadInts, Settle, Arrivals;
      var list := Sorted(m);
      var i := 0;
      assert before + list[..0] == before;
      while i < |list|
        invariant i <= |list| && Valid()
        invariant State() == Settle(before + list[..i], Capacity())
        invariant truncated <==> closed != []
      {
        TakeOne(list[i]);
        assert before + list[..i + 1] == (before + list[..i]) + [list[i]];
        SettleMore(before + list[..i], list[i], Capacity());
        i := i + 1;
      }
      assert list[..i] == list;
    }
  }

  lemma SettleMore(arrivals: seq<Arrival>, a: Arrival, cap: nat)
    ensures Settle(arrivals + [a], cap) == Take(Settle(arrivals, cap), a, cap)
    ensures |Settle(arrivals, cap).closed| <= |Settle(arrivals + [a], cap).closed|
  {
    assert (arrivals + [a])[..|arrivals|] == arrivals;
  }

  lemma NoArrivals()
    ensures AllArrivals([]) == []
  {
  }

  lemma ArrivalsMore(ms: seq<Message>, m: Message)
    ensures AllArrivals(ms + [m]) == AllArrivals(ms) + Arrivals(m, ReadInts(m.data))
  {
    assert (ms + [m])[..|ms|] == ms;
  }

  lemma ParseStep(s: seq<byte>)
    requires |s| >= HEADER && HEADER <= FromLE(s[..8]) <= |s|
    ensures WholeMessage(s) && Parse(s) == [First(s)] + Parse(Rest(s))
  {
  }

  lemma ParseStop(s: seq<byte>)
    requires !(|s| >= HEADER && HEADER <= FromLE(s[..8]) <= |s|)
    ensures Parse(s) == []
  {
  }

  // ---- sending and receiving ----

  lemma {:induction false} ReadIntsInverts(fds: seq<int>)
    requires AllI32(fds)
    ensures ReadInts(Ints(fds)) == fds
  {
    hide Int32, ReadInt32;
    if fds != [] {
      var front, last, data := fds[..|fds| - 1], fds[|fds| - 1], Ints(fds);
      ReadIntsInverts(front);
      Int32RoundTrip(last);
      forall i | 0 <= i < |fds| ensures ReadInts(data)[i] == fds[i] {
        if i < |front| {
          assert data[4 * i..4 * i + 4] == Ints(front)[4 * i..4 * i + 4];
          assert ReadInts(Ints(front))[i] == front[i];
        } else {
          assert data[4 * i..4 * i + 4] == Int32(last);
        }
      }
    }
  }

  lemma RightsMore(fds: seq<int>)
    requires fds != []
    ensures AsRights(fds) == AsRights(fds[..|fds| - 1]) + [Right(fds[|fds| - 1])]
  {
  }

  lemma SettleFirst(token: int, cap: nat)
    ensures Settle(if token >= 0 then [Token(token)] else [], cap) == Outcome(if token >= 0 then token else -1, [], [])
  {
    if token >= 0 {
      assert [Token(token)][..0] == [];
    }
  }

  lemma {:induction false} SettleRights(token: int, fds: seq<int>, cap: nat)
    requires |fds| <= cap
    ensures var rights := AsRights(fds);
      Settle((if token >= 0 then [Token(token)] else []) + rights, cap)
      == Outcome(if token >= 0 then token else -1, fds, [])
  {
    var first := if token >= 0 then [Token(token)] else [];
    var rights := AsRights(fds);
    hide Settle, AsRights;
    if fds == [] {
      assert rights == [] && first + rights == first;
      SettleFirst(token, cap);
    } else {
      RightsMore(fds);
      var front, last := fds[..|fds| - 1], fds[|fds| - 1];
      SettleRights(token, front, cap);
      var rights' := AsRights(front);
      assert first + rights == (first + rights') + [Right(last)];
      SettleMore(first + rights', Right(last), cap);
    }
  }

  /** What one side attaches is what the other is handed, when it has room for it. */
  lemma SendReceive(token: int, fds: seq<int>, cap: nat)
    requires IsI32(token) && AllI32(fds) && |fds| <= 253 && |fds| <= cap
    ensures Settle(AllArrivals(Parse(EncodeAll(Attached(token, fds)))), cap)
      == Outcome(if token >= 0 then token else -1, fds, [])
  {
    hide Parse, EncodeAll, Settle, AllArrivals, TokenPart, RightsPart, AsRights;
    ParseInverts(Attached(token, fds));
    ArrivalsAppend(TokenPart(token), RightsPart(fds));
    TokenArrives(token);
    RightsArrive(fds);
    SettleRights(token, fds, cap);
  }

  lemma {:induction false} ArrivalsAppend(a: seq<Message>, b: seq<Message>)
    ensures AllArrivals(a + b) == AllArrivals(a) + AllArrivals(b)
    decreases |b|
  {
    hide AllArrivals, Arrivals, ReadInts;
    if b == [] {
      assert a + b == a;
      NoArrivals();
    } else {
      var front, m := b[..|b| - 1], b[|b| - 1];
      assert a + b == (a + front) + [m] && b == front + [m];
      ArrivalsAppend(a, front);
      ArrivalsMore(a + front, m);
      ArrivalsMore(front, m);
    }
  }

  lemma OneArrives(m: Message)
    ensures AllArrivals([m]) == Arrivals(m, ReadInts(m.data))
  {
    assert [m][..0] == [];
  }

  lemma TokenArrives(token: int)
    requires IsI32(token)
    ensures AllArrivals(TokenPart(token)) == if token >= 0 then [Token(token)] else []
  {
    hide AllArrivals;
    NoArrivals();
    OneArrives(Message(SOL_KACS, SCM_TOKEN, Int32(token)));
    ReadIntsInverts([token]);
    assert Ints([token]) == Int32(token);
  }

  lemma RightsArrive(fds: seq<int>)
    requires AllI32(fds) && |fds| <= 253
    ensures AllArrivals(RightsPart(fds)) == AsRights(fds)
  {
    hide AllArrivals;
    NoArrivals();
    OneArrives(Message(SOL_SOCKET, SCM_RIGHTS, Ints(fds)));
    ReadIntsInverts(fds);
  }
}
