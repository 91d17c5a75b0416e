/**
 * An evaluator of conditional-ACE bytecode on its own terms: the codes of section 2.4.4.17 of
 * MS-DTYP, operators over a stack of truth values, and nothing of the encoder or the decoder. What
 * it makes of bytecode is what the decoded condition means.
 */
module ArtxMachine {
  import opened Bytes
  import opened Utf16
  import opened SidWire
  import opened Condition
  import opened CondMeaning
  import opened Artx

  /** An operand, or the result of a test. */
  datatype Slot = Val(o: Operand) | Res(t: Truth)

  // ---- operands ----

  function Prefixed(s: seq<byte>): (r: Option<seq<byte>>)
    ensures r.Some? ==> 4 + |r.value| <= |s|
  {
    if |s| < 4 || |s| - 4 < FromLE(s[..4]) then None else Some(s[4..4 + FromLE(s[..4])])
  }

  /** The value of a 64-bit two's complement word. */
  function TwosComplement(u: nat): int {
    if u < 0x8000_0000_0000_0000 then u else u - 0x1_0000_0000_0000_0000
  }

  /** A sign byte that says what the value is, minus (2) or plus or none (1, 3), and the decimal base (2). */
  predicate WellMarked(n: int, sign: byte, base: byte) {
    base == 2 && (if n < 0 then sign == 2 else sign == 1 || sign == 3)
  }

  /**
   * The operand token at the front of `s`; attributes are operands at the top level only. When
   * `strict`, integer literals must be well marked.
   */
  function Operand1(s: seq<byte>, top: bool, strict: bool): (r: OperandRead)
    requires s != []
    ensures r.OperandAt? ==> 1 <= r.len <= |s|
    decreases |s|, 0
  {
    if s[0] == 0x04 then
      if |s| < 11 then NoOperand
      else
        var n := TwosComplement(FromLE(s[1..9]));
        if strict && !WellMarked(n, s[9], s[10]) then NoOperand else OperandAt(Int(n), 11)
    else
      match Prefixed(s[1..])
      case None => NoOperand
      case Some(body) =>
        match Meant(s[0], body, top, strict)
        case None => NoOperand
        case Some(o) => OperandAt(o, 5 + |body|)
  }

  function Text(body: seq<byte>, f: string -> Operand): Option<Operand> {
    match FromUtf16LE(body) case None => None case Some(t) => Some(f(t))
  }

  function Meant(tok: byte, body: seq<byte>, top: bool, strict: bool): Option<Operand>
    decreases |body|, 2
  {
    if tok == 0x10 then Text(body, t => Str(t))
    else if tok == 0x18 then Some(Octet(body))
    else if tok == 0x50 then (match Elements(body, strict) case None => None case Some(items) => Some(Composite(items)))
    else if tok == 0x51 then (match ParseSid(body) case NoSid => None case SidAt(sid, _) => Some(SidLit(sid)))
    else if top && tok == 0xf8 then Text(body, t => Attr(Local, t))
    else if top && tok == 0xf9 then Text(body, t => Attr(User, t))
    else if top && tok == 0xfa then Text(body, t => Attr(Resource, t))
    else if top && tok == 0xfb then Text(body, t => Attr(Device, t))
    else None
  }

  function Elements(s: seq<byte>, strict: bool): Option<seq<Operand>>
    decreases |s|, 1
  {
    if s == [] then Some([])
    else if s[0] == 0x00 then Elements(s[1..], strict)
    else
      match Operand1(s, false, strict)
      case NoOperand => None
      case OperandAt(o, len) =>
        match Elements(s[len..], strict) case None => None case Some(items) => Some([o] + items)
  }

  // ---- operators ----

  function Relation(tok: byte): Option<CompareOp> {
    match tok
    case 0x80 => Some(Eq) case 0x81 => Some(Ne) case 0x82 => Some(Lt) case 0x83 => Some(Le)
    case 0x84 => Some(Gt) case 0x85 => Some(Ge) case 0x86 => Some(Contains) case 0x88 => Some(AnyOf)
    case 0x8e => Some(NotContains) case 0x8f => Some(NotAnyOf)
    case _ => None
  }

  function Membership(tok: byte): Option<MemberOp> {
    match tok
    case 0x89 => Some(MemberOf) case 0x8a => Some(DeviceMemberOf)
    case 0x8b => Some(MemberOfAny) case 0x8c => Some(DeviceMemberOfAny)
    case 0x90 => Some(NotMemberOf) case 0x91 => Some(NotDeviceMemberOf)
    case 0x92 => Some(NotMemberOfAny) case 0x93 => Some(NotDeviceMemberOfAny)
    case _ => None
  }

  /** The test an operator makes of one operand. */
  function TestOf(tok: byte, o: Operand): Option<Cond> {
    if tok == 0x87 then Some(Exists(o))
    else if tok == 0x8d then Some(NotExists(o))
    else match Membership(tok) case None => None case Some(op) => Some(Member(op, o))
  }

  function Apply(env: Cond -> Truth, tok: byte, st: seq<Slot>): Option<seq<Slot>> {
    var d := |st|;
    if tok == 0xa2 then
      if d >= 1 && st[d - 1].Res? then Some(st[..d - 1] + [Res(NotT(st[d - 1].t))]) else None
    else if tok == 0xa0 || tok == 0xa1 then
      if d >= 2 && st[d - 2].Res? && st[d - 1].Res? then
        var x, y := st[d - 2].t, st[d - 1].t;
        Some(st[..d - 2] + [Res(if tok == 0xa0 then AndT(x, y) else OrT(x, y))])
      else None
    else if Relation(tok).Some? then
      if d >= 2 && st[d - 2].Val? && st[d - 1].Val? then
        Some(st[..d - 2] + [Res(env(Compare(Relation(tok).value, st[d - 2].o, st[d - 1].o)))])
      else None
    else if d >= 1 && st[d - 1].Val? && TestOf(tok, st[d - 1].o).Some? then
      Some(st[..d - 1] + [Res(env(TestOf(tok, st[d - 1].o).value))])
    else None
  }

  predicate IsOperand(tok: byte) {
    tok == 0x04 || tok == 0x10 || tok == 0x18 || tok == 0x50 || tok == 0x51 || 0xf8 <= tok <= 0xfb
  }

  /** Zero is padding; a run leaves exactly one result. */
  function Run(env: Cond -> Truth, s: seq<byte>, st: seq<Slot>, strict: bool): Option<Truth>
    decreases |s|
  {
    if s == [] then (if |st| == 1 && st[0].Res? then Some(st[0].t) else None)
    else if s[0] == 0x00 then Run(env, s[1..], st, strict)
    else if IsOperand(s[0]) then
      match Operand1(s, true, strict)
      case NoOperand => None
      case OperandAt(o, len) => Run(env, s[len..], st + [Val(o)], strict)
    else
      match Apply(env, s[0], st)
      case None => None
      case Some(st') => Run(env, s[1..], st', strict)
  }

  /** The value of a whole `artx` body. */
  function ValueOf(env: Cond -> Truth, bytes: seq<byte>, strict: bool): Option<Truth> {
    if |bytes| < 4 || bytes[..4] != [0x61, 0x72, 0x74, 0x78] then None else Run(env, bytes[4..], [], strict)
  }

  // ---- the decoder reads what the machine reads ----

  lemma {:induction false} SameOperand(s: seq<byte>, top: bool)
    requires s != []
    ensures Operand1(s, top, false) == ReadOperand(s, top)
    decreases |s|, 0
  {
    hide FromLE, ReadItems, Elements, ParseSid, FromUtf16LE;
    if s[0] == 0x04 {
      if |s| >= 11 {
        assert s[1..][..8] == s[1..9];
      }
    } else if LpBody(s[1..]).Some? && s[0] == 0x50 {
      SameElements(LpBody(s[1..]).value);
    }
  }

  lemma {:induction false} SameElements(s: seq<byte>)
    ensures Elements(s, false) == ReadItems(s)
    decreases |s|, 1
  {
    hide Operand1, ReadOperand;
    if s != [] && s[0] == 0 {
      SameElements(s[1..]);
    } else if s != [] {
      SameOperand(s, false);
      var r := ReadOperand(s, false);
      if r.OperandAt? {
        SameElements(s[r.len..]);
      }
    }
  }

  /** The machine's view of the decoder's stack. */
  function View(env: Cond -> Truth, st: seq<Item>): (v: seq<Slot>)
    ensures |v| == |st|
    ensures forall i :: 0 <= i < |st| ==> v[i] == Seen(env, st[i])
  {
    seq(|st|, i requires 0 <= i < |st| => Seen(env, st[i]))
  }

  function Seen(env: Cond -> Truth, x: Item): Slot {
    match x case OperandItem(o) => Val(o) case CondItem(c) => Res(Eval(env, c))
  }

  lemma SameRelation(tok: byte)
    ensures Relation(tok) == CompareFromByte(tok) && Membership(tok) == MemberFromByte(tok)
  {
  }

  lemma ViewPush(env: Cond -> Truth, st: seq<Item>, n: nat, x: Item)
    requires n <= |st|
    ensures View(env, st[..n] + [x]) == View(env, st)[..n] + [Seen(env, x)]
    ensures View(env, st + [x]) == View(env, st) + [Seen(env, x)]
  {
  }

  lemma SameApply(env: Cond -> Truth, tok: byte, st: seq<Item>)
    requires tok != 0 && !IsOperand(tok)
    ensures var r := Operate(tok, st);
      Apply(env, tok, View(env, st)) == if r.None? then None else Some(View(env, r.value))
  {
    hide View, Relation, Membership, CompareFromByte, MemberFromByte;
    SameRelation(tok);
    TokensApart(tok);
    var v, d, r := View(env, st), |st|, Operate(tok, st);
    ViewIs(env, st);
    if r.Some? {
      ViewPush(env, st, |r.value| - 1, r.value[|r.value| - 1]);
      assert r.value == st[..|r.value| - 1] + [r.value[|r.value| - 1]];
    }
  }

  lemma ViewIs(env: Cond -> Truth, st: seq<Item>)
    ensures |View(env, st)| == |st| && forall i :: 0 <= i < |st| ==> View(env, st)[i] == Seen(env, st[i])
  {
  }

  /** No code is both a relation and something else. */
  lemma TokensApart(tok: byte)
    ensures Relation(tok).Some? ==> Membership(tok).None? && tok != 0x87 && tok != 0x8d && tok < 0xa0
    ensures Membership(tok).Some? ==> tok != 0x87 && tok != 0x8d && tok < 0xa0
  {
  }

  /** On every byte string and every stack the two machines run alike. */
  lemma {:induction false} SameRun(env: Cond -> Truth, s: seq<byte>, st: seq<Item>)
    ensures var c := Execute(s, st);
      Run(env, s, View(env, st), false) == if c.None? then None else Some(Eval(env, c.value))
    decreases |s|
  {
    hide Operand1, ReadOperand, Operate, Apply, View, Eval;
    ViewIs(env, st);
    if s == [] {
    } else if s[0] == 0 {
      SameRun(env, s[1..], st);
    } else if OperandToken(s[0]) {
      SameOperand(s, true);
      var r := ReadOperand(s, true);
      if r.OperandAt? {
        ViewPush(env, st, 0, OperandItem(r.o));
        SameRun(env, s[r.len..], st + [OperandItem(r.o)]);
      }
    } else {
      SameApply(env, s[0], st);
      var r := Operate(s[0], st);
      if r.Some? {
        SameRun(env, s[1..], r.value);
      }
    }
  }

  /**
   * Decoding keeps the meaning: for every byte string and every environment, the machine accepts what
   * the decoder accepts, and its result is the value of the decoded condition.
   */
  lemma DecodingKeepsMeaning(env: Cond -> Truth, bytes: seq<byte>)
    ensures var c := DecodeArtx(bytes);
      ValueOf(env, bytes, false) == if c.None? then None else Some(Eval(env, c.value))
  {
    hide Run, Execute, View;
    if |bytes| >= 4 {
      ViewIs(env, []);
      SameRun(env, bytes[4..], []);
      assert View(env, []) == [];
    }
  }

  // ---- the encoder writes what the machine runs, with every integer well marked ----

  /** Only integers, here or in a composite, can be badly marked. */
  lemma StrictTagged(s: seq<byte>, top: bool)
    requires s != [] && s[0] != 0x04 && s[0] != 0x50
    ensures Operand1(s, top, true) == Operand1(s, top, false)
  {
    hide FromLE, Elements, ParseSid, FromUtf16LE;
  }

  lemma StrictInt(n: int, rest: seq<byte>, top: bool)
    requires IsI64(n)
    ensures Operand1(Emit(Int(n)) + rest, top, true) == OperandAt(Int(n), 11)
  {
    var s := Emit(Int(n)) + rest;
    assert s[1..9] == ToLE(Wrap(n, TWO64), 8);
    PowValues();
    LeRoundTrip(Wrap(n, TWO64), 8);
  }

  lemma StrictBody(body: seq<byte>, rest: seq<byte>, top: bool)
    requires |body| < Pow256(4)
    ensures Operand1([0x50] + LenPrefixed(body) + rest, top, true) ==
      match Meant(0x50, body, top, true) case None => NoOperand case Some(o) => OperandAt(o, 5 + |body|)
  {
    hide Meant, FromLE, ToLE, Pow256, LenPrefixed, Prefixed;
    var s := [0x50] + LenPrefixed(body) + rest;
    assert s[1..] == LenPrefixed(body) + rest;
    PrefixRead(body, rest);
  }

  lemma StrictComposite(items: seq<Operand>, rest: seq<byte>, top: bool)
    requires TypedAll(items) && Sized(Composite(items))
    requires Elements(EmitAll(items), true) == Some(CanonAll(items))
    ensures Operand1(Emit(Composite(items)) + rest, top, true) ==
      OperandAt(Composite(CanonAll(items)), 5 + |EmitAll(items)|)
  {
    hide Operand1, EmitAll, Elements, TypedAll, SizedAll, CanonAll, Pow256, LenPrefixed;
    StrictBody(EmitAll(items), rest, top);
  }

  lemma PrefixRead(data: seq<byte>, rest: seq<byte>)
    requires |data| < Pow256(4)
    ensures Prefixed(LenPrefixed(data) + rest) == Some(data)
  {
    LpRoundTrip(data, rest);
  }

  lemma {:induction false} StrictEmitted(o: Operand, rest: seq<byte>, top: bool)
    requires TypedOperand(o) && Sized(o) && (if o.Attr? then top else Plain(o))
    ensures Operand1(Emit(o) + rest, top, true) == OperandAt(Canon(o), |Emit(o)|)
    decreases o, 0
  {
    hide Operand1, ReadOperand, TypedSid, EncodeSid, Utf16LE, TypedAll, SizedAll, PlainAll, LenPrefixed;
    match o
    case Int(n) => StrictInt(n, rest, top);
    case Composite(items) =>
      StrictEmittedAll(items);
      StrictComposite(items, rest, top);
    case _ =>
      var s := Emit(o) + rest;
      StrictTagged(s, top);
      SameOperand(s, top);
      ReadEmitted(o, rest, top);
  }

  lemma {:induction false} StrictEmittedAll(items: seq<Operand>)
    requires TypedAll(items) && SizedAll(items) && PlainAll(items)
    ensures Elements(EmitAll(items), true) == Some(CanonAll(items))
    decreases items, 1
  {
    hide Operand1, Emit, Canon, Sized, Plain, TypedOperand;
    if items != [] {
      var x, s := Emit(items[0]), EmitAll(items);
      StrictItem(items[0], EmitAll(items[1..]));
      StrictEmittedAll(items[1..]);
      assert s[|x|..] == EmitAll(items[1..]);
    }
  }

  lemma {:induction false} StrictItem(o: Operand, rest: seq<byte>)
    requires TypedOperand(o) && Sized(o) && Plain(o)
    ensures Emit(o)[0] != 0 && Operand1(Emit(o) + rest, false, true) == OperandAt(Canon(o), |Emit(o)|)
    decreases o, 1
  {
    hide Operand1, Emit, Canon, Sized;
    StrictEmitted(o, rest, false);
    EmitNonZero(o);
  }

  lemma RunOperand(env: Cond -> Truth, o: Operand, rest: seq<byte>, st: seq<Slot>)
    requires TypedOperand(o) && Sized(o) && Decodable(o)
    ensures Run(env, Emit(o) + rest, st, true) == Run(env, rest, st + [Val(Canon(o))], true)
  {
    hide Operand1, Emit, Canon, Sized, TypedOperand, Plain, Apply;
    EmitStarts(o);
    StrictEmitted(o, rest, true);
    assert (Emit(o) + rest)[|Emit(o)|..] == rest;
  }

  lemma EmitStarts(o: Operand)
    requires TypedOperand(o)
    ensures Emit(o)[0] != 0 && IsOperand(Emit(o)[0])
  {
  }

  lemma RunOperator(env: Cond -> Truth, tok: byte, rest: seq<byte>, st: seq<Slot>, st': seq<Slot>)
    requires tok != 0 && !IsOperand(tok) && Apply(env, tok, st) == Some(st')
    ensures Run(env, [tok] + rest, st, true) == Run(env, rest, st', true)
  {
    hide Operand1, Apply;
    assert ([tok] + rest)[1..] == rest;
  }

  /** One operand and its operator. */
  lemma RunUnary(env: Cond -> Truth, o: Operand, tok: byte, rest: seq<byte>, st: seq<Slot>, st': seq<Slot>)
    requires TypedOperand(o) && Sized(o) && Decodable(o) && tok != 0 && !IsOperand(tok)
    requires Apply(env, tok, st + [Val(Canon(o))]) == Some(st')
    ensures Run(env, Emit(o) + [tok] + rest, st, true) == Run(env, rest, st', true)
  {
    hide Run, Apply, Emit, Sized, TypedOperand, Canon, IsOperand, Decodable;
    assert Emit(o) + [tok] + rest == Emit(o) + ([tok] + rest);
    RunOperand(env, o, [tok] + rest, st);
    RunOperator(env, tok, rest, st + [Val(Canon(o))], st');
  }

  lemma ApplyTest(env: Cond -> Truth, tok: byte, st: seq<Slot>, o: Operand)
    requires Relation(tok).None? && tok < 0xa0 && TestOf(tok, o).Some?
    ensures Apply(env, tok, st + [Val(o)]) == Some(st + [Res(env(TestOf(tok, o).value))])
  {
    hide Relation, TestOf;
    assert (st + [Val(o)])[..|st|] == st;
  }

  lemma ApplyRelation(env: Cond -> Truth, op: CompareOp, st: seq<Slot>, l: Operand, r: Operand)
    ensures Apply(env, CompareByte(op), st + [Val(l)] + [Val(r)]) == Some(st + [Res(env(Compare(op, l, r)))])
    ensures CompareByte(op) != 0 && !IsOperand(CompareByte(op))
  {
    assert Relation(CompareByte(op)) == Some(op) && CompareByte(op) < 0xa0;
    hide Relation, CompareByte;
    assert (st + [Val(l)] + [Val(r)])[..|st|] == st;
  }

  lemma ApplyPair(env: Cond -> Truth, tok: byte, st: seq<Slot>, x: Truth, y: Truth)
    requires tok == 0xa0 || tok == 0xa1
    ensures Apply(env, tok, st + [Res(x)] + [Res(y)]) == Some(st + [Res(if tok == 0xa0 then AndT(x, y) else OrT(x, y))])
  {
    assert (st + [Res(x)] + [Res(y)])[..|st|] == st;
  }

  lemma MemberTests(op: MemberOp, o: Operand)
    ensures var tok := MemberByte(op);
      tok != 0 && tok < 0xa0 && !IsOperand(tok) && Relation(tok).None? && TestOf(tok, o) == Some(Member(op, o))
  {
  }

  lemma RunCompare(env: Cond -> Truth, op: CompareOp, l: Operand, r: Operand, rest: seq<byte>, st: seq<Slot>)
    requires TypedOperand(l) && Sized(l) && Decodable(l) && TypedOperand(r) && Sized(r) && Decodable(r)
    ensures Run(env, Emit(l) + Emit(r) + [CompareByte(op)] + rest, st, true) ==
      Run(env, rest, st + [Res(env(Compare(op, Canon(l), Canon(r))))], true)
  {
    hide Run, Apply, Emit, Sized, TypedOperand, Canon, IsOperand, Decodable, CompareByte;
    var tok := CompareByte(op);
    assert Emit(l) + Emit(r) + [tok] + rest == Emit(l) + (Emit(r) + [tok] + rest);
    RunOperand(env, l, Emit(r) + [tok] + rest, st);
    ApplyRelation(env, op, st, Canon(l), Canon(r));
    RunUnary(env, r, tok, rest, st + [Val(Canon(l))], st + [Res(env(Compare(op, Canon(l), Canon(r))))]);
  }

  lemma RunTest(env: Cond -> Truth, o: Operand, tok: byte, rest: seq<byte>, st: seq<Slot>)
    requires TypedOperand(o) && Sized(o) && Decodable(o)
    requires tok != 0 && tok < 0xa0 && !IsOperand(tok) && Relation(tok).None? && TestOf(tok, Canon(o)).Some?
    ensures Run(env, Emit(o) + [tok] + rest, st, true) == Run(env, rest, st + [Res(env(TestOf(tok, Canon(o)).value))], true)
  {
    hide Run, Apply, Emit, Sized, TypedOperand, Canon, IsOperand, Decodable, TestOf, Relation;
    ApplyTest(env, tok, st, Canon(o));
    RunUnary(env, o, tok, rest, st, st + [Res(env(TestOf(tok, Canon(o)).value))]);
  }

  /** On any stack, a condition's tokens push its value. */
  lemma {:induction false} RunEmitted(env: Cond -> Truth, c: Cond, rest: seq<byte>, st: seq<Slot>)
    requires Typed(c) && SizedCond(c) && DecodableCond(c)
    ensures Run(env, EmitCond(c) + rest, st, true) == Run(env, rest, st + [Res(Eval(env, CanonCond(c)))], true)
    decreases c, 1
  {
    hide Run, Apply, Emit, Sized, TypedOperand, Canon, Decodable, CompareByte, MemberByte, Relation, Membership;
    match c
    case Compare(op, l, r) => RunCompare(env, op, l, r, rest, st);
    case Member(op, o) =>
      MemberTests(op, Canon(o));
      RunTest(env, o, MemberByte(op), rest, st);
    case Exists(o) =>
      TokensApart(0x87);
      RunTest(env, o, 0x87, rest, st);
    case NotExists(o) =>
      TokensApart(0x8d);
      RunTest(env, o, 0x8d, rest, st);
    case Not(d) =>
      assert EmitCond(c) + rest == EmitCond(d) + ([0xa2] + rest);
      RunEmitted(env, d, [0xa2] + rest, st);
      ApplyNot(env, st, Eval(env, CanonCond(d)));
      RunOperator(env, 0xa2, rest, st + [Res(Eval(env, CanonCond(d)))], st + [Res(Eval(env, CanonCond(c)))]);
    case And(a, b) => RunPair(env, c, a, b, 0xa0, rest, st);
    case Or(a, b) => RunPair(env, c, a, b, 0xa1, rest, st);
  }

  lemma ApplyNot(env: Cond -> Truth, st: seq<Slot>, x: Truth)
    ensures Apply(env, 0xa2, st + [Res(x)]) == Some(st + [Res(NotT(x))])
  {
    assert (st + [Res(x)])[..|st|] == st;
  }

  lemma {:induction false} RunPair(env: Cond -> Truth, c: Cond, a: Cond, b: Cond, tok: byte, rest: seq<byte>, st: seq<Slot>)
    requires (c == And(a, b) && tok == 0xa0) || (c == Or(a, b) && tok == 0xa1)
    requires Typed(c) && SizedCond(c) && DecodableCond(c)
    ensures Run(env, EmitCond(c) + rest, st, true) == Run(env, rest, st + [Res(Eval(env, CanonCond(c)))], true)
    decreases c, 0
  {
    hide Run, Apply, Emit, Sized, TypedOperand, Canon, Decodable;
    assert EmitCond(c) + rest == EmitCond(a) + (EmitCond(b) + ([tok] + rest));
    RunEmitted(env, a, EmitCond(b) + ([tok] + rest), st);
    var x, y := Eval(env, CanonCond(a)), Eval(env, CanonCond(b));
    RunEmitted(env, b, [tok] + rest, st + [Res(x)]);
    ApplyPair(env, tok, st, x, y);
    RunOperator(env, tok, rest, st + [Res(x)] + [Res(y)], st + [Res(Eval(env, CanonCond(c)))]);
  }

  lemma {:induction false} RunPadding(env: Cond -> Truth, n: nat, st: seq<Slot>)
    ensures Run(env, Zeros(n), st, true) == Run(env, [], st, true)
  {
    if n > 0 {
      assert Zeros(n)[1..] == Zeros(n - 1);
      RunPadding(env, n - 1, st);
    }
  }

  /**
   * Encoding keeps the meaning: in every environment the machine, asking every integer to be well
   * marked, runs the encoding of a condition to the condition's own value. SIDs the wire cuts are
   * tested as cut.
   */
  lemma EncodingKeepsMeaning(env: Cond -> Truth, c: Cond)
    requires Typed(c) && SizedCond(c) && DecodableCond(c)
    ensures ValueOf(env, EncodeCond(c), true) == Some(Eval(env, CanonCond(c)))
    ensures SidsFitCond(c) ==> ValueOf(env, EncodeCond(c), true) == Some(Eval(env, c))
  {
    hide EmitCond, CanonCond, DecodableCond, SizedCond, SidsFitCond, Apply, Operand1, Eval;
    var body := MAGIC + EmitCond(c);
    var pad := Zeros(Padding(|body|));
    var t := Eval(env, CanonCond(c));
    assert EncodeCond(c)[..4] == MAGIC;
    assert EncodeCond(c)[4..] == EmitCond(c) + pad;
    RunEmitted(env, c, pad, []);
    assert [] + [Res(t)] == [Res(t)];
    RunPadding(env, |pad|, [Res(t)]);
    CanonCondExact(c);
  }
}
