/** The stack-machine decoder of conditional-ACE bytecode. */
module Artx {
  import opened Bytes
  import opened Utf16
  import opened SidWire
  import opened Condition

  datatype Item = OperandItem(o: Operand) | CondItem(c: Cond)

  // ---- the token readers ----

  /** `take_lp_bytes`: the length-prefixed body at the front of `s`. */
  function LpBody(s: seq<byte>): (r: Option<seq<byte>>)
    ensures r.Some? ==> 4 + |r.value| <= |s|
  {
    if |s| < 4 then None else
    var len := FromLE(s[..4]);
    if |s| < 4 + len then None else Some(s[4..4 + len])
  }

  function ScopeFromByte(b: byte): Option<Scope> {
    if b == 0xf8 then Some(Local) else if b == 0xf9 then Some(User)
    else if b == 0xfa then Some(Resource) else if b == 0xfb then Some(Device) else None
  }

  datatype OperandRead = NoOperand | OperandAt(o: Operand, len: nat)

  /**
   * The operand token at the front of `s`, and its length with the tag. Attribute references are
   * operands at the top level but not inside a composite.
   */
  function ReadOperand(s: seq<byte>, attrs: bool): (r: OperandRead)
    requires s != []
    ensures r.OperandAt? ==> 5 <= r.len <= |s|
    decreases |s|, 0
  {
    var tok, rest := s[0], s[1..];
    if tok == TOK_INT64 then
      if |rest| < 10 then NoOperand
      else
        LeInverse(rest[..8]);
        PowValues();
        OperandAt(Int(Signed(FromLE(rest[..8]), TWO64)), 11)
    else
      match LpBody(rest)
      case None => NoOperand
      case Some(body) =>
        match OperandOf(tok, body, attrs)
        case None => NoOperand
        case Some(o) => OperandAt(o, 5 + |body|)
  }

  /** The operand a length-prefixed body stands for under its tag. */
  function OperandOf(tok: byte, body: seq<byte>, attrs: bool): Option<Operand>
    decreases |body|, 2
  {
    if tok == TOK_STRING then
      (match FromUtf16LE(body) case None => None case Some(t) => Some(Str(t)))
    else if tok == TOK_OCTET then Some(Octet(body))
    else if tok == TOK_SID then
      (match ParseSid(body) case NoSid => None case SidAt(sid, _) => Some(SidLit(sid)))
    else if tok == TOK_COMPOSITE then
      (match ReadItems(body) case None => None case Some(items) => Some(Composite(items)))
    else if attrs && ScopeFromByte(tok).Some? then
      (match FromUtf16LE(body) case None => None case Some(t) => Some(Attr(ScopeFromByte(tok).value, t)))
    else None
  }

  /** `decode_composite`: operand tokens and padding, no attributes and no operators. */
  function ReadItems(s: seq<byte>): Option<seq<Operand>>
    decreases |s|, 1
  {
    if s == [] then Some([])
    else if s[0] == 0 then ReadItems(s[1..])
    else
      match ReadOperand(s, false)
      case NoOperand => None
      case OperandAt(o, len) =>
        match ReadItems(s[len..])
        case None => None
        case Some(items) => Some([o] + items)
  }

  function CompareFromByte(b: byte): Option<CompareOp> {
    if b == 0x80 then Some(Eq) else if b == 0x81 then Some(Ne) else if b == 0x82 then Some(Lt)
    else if b == 0x83 then Some(Le) else if b == 0x84 then Some(Gt) else if b == 0x85 then Some(Ge)
    else if b == 0x86 then Some(Contains) else if b == 0x88 then Some(AnyOf)
    else if b == 0x8e then Some(NotContains) else if b == 0x8f then Some(NotAnyOf) else None
  }

  function MemberFromByte(b: byte): Option<MemberOp> {
    if b == 0x89 then Some(MemberOf) else if b == 0x8a then Some(DeviceMemberOf)
    else if b == 0x8b then Some(MemberOfAny) else if b == 0x8c then Some(DeviceMemberOfAny)
    else if b == 0x90 then Some(NotMemberOf) else if b == 0x91 then Some(NotDeviceMemberOf)
    else if b == 0x92 then Some(NotMemberOfAny) else if b == 0x93 then Some(NotDeviceMemberOfAny) else None
  }

  predicate OperandToken(b: byte) {
    b == TOK_INT64 || b == TOK_STRING || b == TOK_OCTET || b == TOK_SID || b == TOK_COMPOSITE || ScopeFromByte(b).Some?
  }

  // ---- the machine ----

  /** The top `n` items are operands. */
  predicate TopOperands(st: seq<Item>, n: nat) {
    n <= |st| && forall i :: |st| - n <= i < |st| ==> st[i].OperandItem?
  }

  predicate TopConds(st: seq<Item>, n: nat) {
    n <= |st| && forall i :: |st| - n <= i < |st| ==> st[i].CondItem?
  }

  /** One operator token on the stack. */
  function Operate(tok: byte, st: seq<Item>): Option<seq<Item>> {
    var d := |st|;
    if tok == TOK_EXISTS then
      if TopOperands(st, 1) then Some(st[..d - 1] + [CondItem(Exists(st[d - 1].o))]) else None
    else if tok == TOK_NOT_EXISTS then
      if TopOperands(st, 1) then Some(st[..d - 1] + [CondItem(NotExists(st[d - 1].o))]) else None
    else if tok == TOK_AND then
      if TopConds(st, 2) then Some(st[..d - 2] + [CondItem(And(st[d - 2].c, st[d - 1].c))]) else None
    else if tok == TOK_OR then
      if TopConds(st, 2) then Some(st[..d - 2] + [CondItem(Or(st[d - 2].c, st[d - 1].c))]) else None
    else if tok == TOK_NOT then
      if TopConds(st, 1) then Some(st[..d - 1] + [CondItem(Not(st[d - 1].c))]) else None
    else if CompareFromByte(tok).Some? then
      if TopOperands(st, 2) then Some(st[..d - 2] + [CondItem(Compare(CompareFromByte(tok).value, st[d - 2].o, st[d - 1].o))])
      else None
    else if MemberFromByte(tok).Some? then
      if TopOperands(st, 1) then Some(st[..d - 1] + [CondItem(Member(MemberFromByte(tok).value, st[d - 1].o))]) else None
    else None
  }

  /** The rest of a run: the tokens `s` on the stack `st`. */
  function Execute(s: seq<byte>, st: seq<Item>): Option<Cond>
    decreases |s|
  {
    if s == [] then (if |st| == 1 && st[0].CondItem? then Some(st[0].c) else None)
    else if s[0] == 0 then Execute(s[1..], st)
    else if OperandToken(s[0]) then
      (match ReadOperand(s, true)
       case NoOperand => None
       case OperandAt(o, len) => Execute(s[len..], st + [OperandItem(o)]))
    else
      match Operate(s[0], st)
      case None => None
      case Some(st') => Execute(s[1..], st')
  }

  /** `decode_artx`. */
  function DecodeArtx(bytes: seq<byte>): Option<Cond> {
    if |bytes| < 4 || bytes[..4] != MAGIC then None else Execute(bytes[4..], [])
  }

  // ---- what the bytecode keeps ----

  /** Every length prefix holds its length: no string, SID, octet or composite reaches 4 GiB. */
  predicate Sized(o: Operand)
    requires TypedOperand(o)
    decreases o, 0
  {
    match o
    case Int(_) => true
    case Str(t) => |Utf16LE(t)| < Pow256(4)
    case SidLit(sid) => |EncodeSid(sid)| < Pow256(4)
    case Octet(data) => |data| < Pow256(4)
    case Composite(items) => |EmitAll(items)| < Pow256(4) && SizedAll(items)
    case Attr(_, name) => |Utf16LE(name)| < Pow256(4)
  }

  predicate SizedAll(items: seq<Operand>)
    requires TypedAll(items)
    decreases items, 1
  {
    items == [] || (Sized(items[0]) && SizedAll(items[1..]))
  }

  /** No attribute reference, here or in a composite below. */
  predicate Plain(o: Operand) {
    match o
    case Attr(_, _) => false
    case Composite(items) => PlainAll(items)
    case _ => true
  }

  predicate PlainAll(items: seq<Operand>) {
    items == [] || (Plain(items[0]) && PlainAll(items[1..]))
  }

  /** An attribute reference may stand alone, but not inside a composite. */
  predicate Decodable(o: Operand) {
    o.Attr? || Plain(o)
  }

  /** The operand with each SID cut to what the wire carries of it. */
  function Canon(o: Operand): Operand {
    match o
    case SidLit(sid) => SidLit(Truncated(sid))
    case Composite(items) => Composite(CanonAll(items))
    case _ => o
  }

  function CanonAll(items: seq<Operand>): seq<Operand> {
    if items == [] then [] else [Canon(items[0])] + CanonAll(items[1..])
  }

  lemma LpRoundTrip(data: seq<byte>, rest: seq<byte>)
    requires |data| < Pow256(4)
    ensures LpBody(LenPrefixed(data) + rest) == Some(data)
  {
    var s := LenPrefixed(data) + rest;
    assert s[..4] == ToLE(|data|, 4);
    LeRoundTrip(|data|, 4);
    assert s[4..4 + |data|] == data;
  }

  lemma IntRoundTrip(n: int, rest: seq<byte>, attrs: bool)
    requires IsI64(n)
    ensures ReadOperand(Emit(Int(n)) + rest, attrs) == OperandAt(Int(n), |Emit(Int(n))|)
  {
    var e := Emit(Int(n));
    var s := e + rest;
    assert s[1..][..8] == ToLE(Wrap(n, TWO64), 8);
    PowValues();
    LeRoundTrip(Wrap(n, TWO64), 8);
  }

  lemma ReadTagged(tok: byte, body: seq<byte>, rest: seq<byte>, attrs: bool)
    requires tok != TOK_INT64 && |body| < Pow256(4)
    ensures var s := [tok] + LenPrefixed(body) + rest;
      ReadOperand(s, attrs) ==
      match OperandOf(tok, body, attrs) case None => NoOperand case Some(o) => OperandAt(o, 5 + |body|)
  {
    var s := [tok] + LenPrefixed(body) + rest;
    assert s[1..] == LenPrefixed(body) + rest;
    LpRoundTrip(body, rest);
  }

  /** What reading the tokens of `o` should give. */
  function Emitted(o: Operand, attrs: bool): OperandRead
    requires TypedOperand(o)
  {
    if (if o.Attr? then attrs else Plain(o)) then OperandAt(Canon(o), |Emit(o)|) else NoOperand
  }

  lemma StrEmitted(t: string, rest: seq<byte>, attrs: bool)
    requires Sized(Str(t))
    ensures ReadOperand(Emit(Str(t)) + rest, attrs) == Emitted(Str(t), attrs)
  {
    hide ReadOperand, LpBody, Utf16LE, FromUtf16LE;
    ReadTagged(TOK_STRING, Utf16LE(t), rest, attrs);
    Utf16RoundTrip(t);
  }

  lemma SidEmitted(sid: Sid, rest: seq<byte>, attrs: bool)
    requires TypedSid(sid) && Sized(SidLit(sid))
    ensures ReadOperand(Emit(SidLit(sid)) + rest, attrs) == Emitted(SidLit(sid), attrs)
  {
    hide ReadOperand, LpBody, EncodeSid, ParseSid, TypedSid;
    ReadTagged(TOK_SID, EncodeSid(sid), rest, attrs);
    SidThroughWire(sid, []);
    assert EncodeSid(sid) + [] == EncodeSid(sid);
  }

  lemma OctetEmitted(data: seq<byte>, rest: seq<byte>, attrs: bool)
    requires Sized(Octet(data))
    ensures ReadOperand(Emit(Octet(data)) + rest, attrs) == Emitted(Octet(data), attrs)
  {
    hide ReadOperand, LpBody;
    ReadTagged(TOK_OCTET, data, rest, attrs);
  }

  lemma AttrEmitted(scope: Scope, name: string, rest: seq<byte>, attrs: bool)
    requires Sized(Attr(scope, name))
    ensures ReadOperand(Emit(Attr(scope, name)) + rest, attrs) == Emitted(Attr(scope, name), attrs)
  {
    hide ReadOperand, LpBody, Utf16LE, FromUtf16LE;
    ReadTagged(ScopeByte(scope), Utf16LE(name), rest, attrs);
    Utf16RoundTrip(name);
  }

  lemma CompositeEmitted(items: seq<Operand>, rest: seq<byte>, attrs: bool)
    requires TypedAll(items) && Sized(Composite(items))
    requires ReadItems(EmitAll(items)) == if PlainAll(items) then Some(CanonAll(items)) else None
    ensures ReadOperand(Emit(Composite(items)) + rest, attrs) == Emitted(Composite(items), attrs)
  {
    hide ReadOperand, LpBody, EmitAll, ReadItems, PlainAll, CanonAll, TypedAll, SizedAll;
    ReadTagged(TOK_COMPOSITE, EmitAll(items), rest, attrs);
  }

  /** An emitted operand is read back, whatever follows it, exactly when it is decodable here. */
  lemma {:induction false} ReadEmitted(o: Operand, rest: seq<byte>, attrs: bool)
    requires TypedOperand(o) && Sized(o)
    ensures ReadOperand(Emit(o) + rest, attrs) == Emitted(o, attrs)
    decreases o, 0
  {
    hide ReadOperand, Emit, Plain, Canon, TypedSid, EncodeSid, Utf16LE, TypedAll, SizedAll;
    match o
    case Int(n) => IntRoundTrip(n, rest, attrs); IntEmitted(n, attrs);
    case Str(t) => StrEmitted(t, rest, attrs);
    case SidLit(sid) => SidEmitted(sid, rest, attrs);
    case Octet(data) => OctetEmitted(data, rest, attrs);
    case Composite(items) =>
      ReadEmittedAll(items);
      CompositeEmitted(items, rest, attrs);
    case Attr(scope, name) => AttrEmitted(scope, name, rest, attrs);
  }

  lemma IntEmitted(n: int, attrs: bool)
    requires IsI64(n)
    ensures Emitted(Int(n), attrs) == OperandAt(Int(n), |Emit(Int(n))|)
  {
  }

  lemma {:induction false} ReadEmittedAll(items: seq<Operand>)
    requires TypedAll(items) && SizedAll(items)
    ensures ReadItems(EmitAll(items)) == if PlainAll(items) then Some(CanonAll(items)) else None
    decreases items, 1
  {
    if items != [] {
      var x, s := Emit(items[0]), EmitAll(items);
      ReadEmitted(items[0], EmitAll(items[1..]), false);
      ReadEmittedAll(items[1..]);
      assert s[|x|..] == EmitAll(items[1..]);
      EmitNonZero(items[0]);
    }
  }

  lemma EmitNonZero(o: Operand)
    requires TypedOperand(o)
    ensures Emit(o)[0] != 0 && OperandToken(Emit(o)[0])
  {
  }

  predicate SizedCond(c: Cond)
    requires Typed(c)
  {
    match c
    case Compare(_, l, r) => Sized(l) && Sized(r)
    case Member(_, o) => Sized(o)
    case Exists(o) => Sized(o)
    case NotExists(o) => Sized(o)
    case Not(d) => SizedCond(d)
    case And(a, b) => SizedCond(a) && SizedCond(b)
    case Or(a, b) => SizedCond(a) && SizedCond(b)
  }

  /** No composite holds an attribute reference. */
  predicate DecodableCond(c: Cond) {
    match c
    case Compare(_, l, r) => Decodable(l) && Decodable(r)
    case Member(_, o) => Decodable(o)
    case Exists(o) => Decodable(o)
    case NotExists(o) => Decodable(o)
    case Not(d) => DecodableCond(d)
    case And(a, b) => DecodableCond(a) && DecodableCond(b)
    case Or(a, b) => DecodableCond(a) && DecodableCond(b)
  }

  function CanonCond(c: Cond): Cond {
    match c
    case Compare(op, l, r) => Compare(op, Canon(l), Canon(r))
    case Member(op, o) => Member(op, Canon(o))
    case Exists(o) => Exists(Canon(o))
    case NotExists(o) => NotExists(Canon(o))
    case Not(d) => Not(CanonCond(d))
    case And(a, b) => And(CanonCond(a), CanonCond(b))
    case Or(a, b) => Or(CanonCond(a), CanonCond(b))
  }

  lemma ExecuteOperand(o: Operand, rest: seq<byte>, st: seq<Item>)
    requires TypedOperand(o) && Sized(o)
    ensures Execute(Emit(o) + rest, st) ==
      if Decodable(o) then Execute(rest, st + [OperandItem(Canon(o))]) else None
  {
    hide ReadOperand, Emit, Sized, TypedOperand, Canon, OperandToken, Plain;
    EmitNonZero(o);
    ReadEmitted(o, rest, true);
    assert (Emit(o) + rest)[|Emit(o)|..] == rest;
  }

  lemma ExecuteOperator(tok: byte, rest: seq<byte>, st: seq<Item>)
    requires tok != 0 && !OperandToken(tok)
    ensures Execute([tok] + rest, st) == match Operate(tok, st) case None => None case Some(st') => Execute(rest, st')
  {
    hide ReadOperand, Operate;
    assert ([tok] + rest)[1..] == rest;
  }

  lemma OperatorBytes(op: CompareOp, mop: MemberOp)
    ensures CompareFromByte(CompareByte(op)) == Some(op) && !OperandToken(CompareByte(op))
    ensures MemberFromByte(MemberByte(mop)) == Some(mop) && !OperandToken(MemberByte(mop))
    ensures CompareFromByte(MemberByte(mop)).None?
    ensures CompareByte(op) !in {0, TOK_EXISTS, TOK_NOT_EXISTS, TOK_AND, TOK_OR, TOK_NOT}
    ensures MemberByte(mop) !in {0, TOK_EXISTS, TOK_NOT_EXISTS, TOK_AND, TOK_OR, TOK_NOT}
  {
  }

  lemma UnaryExecutes(o: Operand, tok: byte, rest: seq<byte>, st: seq<Item>)
    requires TypedOperand(o) && Sized(o) && tok != 0 && !OperandToken(tok)
    ensures Execute(Emit(o) + [tok] + rest, st) ==
      if !Decodable(o) then None
      else match Operate(tok, st + [OperandItem(Canon(o))]) case None => None case Some(st') => Execute(rest, st')
  {
    hide Execute, Operate, Emit, Sized, TypedOperand, Canon, OperandToken, Decodable;
    assert Emit(o) + [tok] + rest == Emit(o) + ([tok] + rest);
    ExecuteOperand(o, [tok] + rest, st);
    ExecuteOperator(tok, rest, st + [OperandItem(Canon(o))]);
  }

  lemma CompareExecutes(op: CompareOp, l: Operand, r: Operand, rest: seq<byte>, st: seq<Item>)
    requires TypedOperand(l) && Sized(l) && TypedOperand(r) && Sized(r)
    ensures Execute(Emit(l) + Emit(r) + [CompareByte(op)] + rest, st) ==
      if Decodable(l) && Decodable(r) then Execute(rest, st + [CondItem(Compare(op, Canon(l), Canon(r)))]) else None
  {
    hide Execute, Emit, Sized, TypedOperand, Canon, OperandToken, Decodable, CompareByte, CompareFromByte, MemberFromByte;
    var tok := CompareByte(op);
    assert Emit(l) + Emit(r) + [tok] + rest == Emit(l) + (Emit(r) + [tok] + rest);
    ExecuteOperand(l, Emit(r) + [tok] + rest, st);
    OperatorBytes(op, MemberOf);
    var mid := st + [OperandItem(Canon(l))];
    UnaryExecutes(r, tok, rest, mid);
    var top := mid + [OperandItem(Canon(r))];
    assert top[..|top| - 2] == st;
  }

  /** Running an emitted condition on any stack pushes it, or fails if a composite holds an attribute. */
  lemma {:induction false} ExecuteEmitted(c: Cond, rest: seq<byte>, st: seq<Item>)
    requires Typed(c) && SizedCond(c)
    ensures Execute(EmitCond(c) + rest, st) ==
      if DecodableCond(c) then Execute(rest, st + [CondItem(CanonCond(c))]) else None
    decreases c, 1
  {
    hide Execute, Emit, Sized, TypedOperand, Canon, OperandToken, Decodable, CompareByte, CompareFromByte, MemberByte, MemberFromByte;
    match c
    case Compare(op, l, r) => CompareExecutes(op, l, r, rest, st);
    case Member(op, o) =>
      OperatorBytes(Eq, op);
      UnaryExecutes(o, MemberByte(op), rest, st);
      Popped(st, OperandItem(Canon(o)));
    case Exists(o) =>
      OperatorTokens();
      UnaryExecutes(o, TOK_EXISTS, rest, st);
      Popped(st, OperandItem(Canon(o)));
    case NotExists(o) =>
      OperatorTokens();
      UnaryExecutes(o, TOK_NOT_EXISTS, rest, st);
      Popped(st, OperandItem(Canon(o)));
    case Not(d) =>
      assert EmitCond(c) + rest == EmitCond(d) + ([TOK_NOT] + rest);
      ExecuteEmitted(d, [TOK_NOT] + rest, st);
      OperatorTokens();
      ExecuteOperator(TOK_NOT, rest, st + [CondItem(CanonCond(d))]);
      Popped(st, CondItem(CanonCond(d)));
    case And(a, b) => PairExecutes(c, a, b, TOK_AND, rest, st);
    case Or(a, b) => PairExecutes(c, a, b, TOK_OR, rest, st);
  }

  lemma {:induction false} PairExecutes(c: Cond, a: Cond, b: Cond, tok: byte, rest: seq<byte>, st: seq<Item>)
    requires (c == And(a, b) && tok == TOK_AND) || (c == Or(a, b) && tok == TOK_OR)
    requires Typed(c) && SizedCond(c)
    ensures Execute(EmitCond(c) + rest, st) ==
      if DecodableCond(c) then Execute(rest, st + [CondItem(CanonCond(c))]) else None
    decreases c, 0
  {
    hide Execute, Emit, Sized, TypedOperand, Canon, OperandToken, Decodable;
    assert EmitCond(c) + rest == EmitCond(a) + (EmitCond(b) + ([tok] + rest));
    ExecuteEmitted(a, EmitCond(b) + ([tok] + rest), st);
    var mid := st + [CondItem(CanonCond(a))];
    ExecuteEmitted(b, [tok] + rest, mid);
    OperatorTokens();
    var top := mid + [CondItem(CanonCond(b))];
    ExecuteOperator(tok, rest, top);
    assert top[..|top| - 2] == st;
  }

  lemma OperatorTokens()
    ensures !OperandToken(TOK_EXISTS) && !OperandToken(TOK_NOT_EXISTS)
    ensures !OperandToken(TOK_AND) && !OperandToken(TOK_OR) && !OperandToken(TOK_NOT)
  {
  }

  lemma Popped(st: seq<Item>, x: Item)
    ensures (st + [x])[..|st + [x]| - 1] == st
  {
  }

  lemma {:induction false} ExecutePadding(n: nat, st: seq<Item>)
    ensures Execute(Zeros(n), st) == Execute([], st)
  {
    if n > 0 {
      assert Zeros(n)[1..] == Zeros(n - 1);
      ExecutePadding(n - 1, st);
    }
  }

  /** What decoding makes of every encoded condition. */
  lemma DecodeEncoded(c: Cond)
    requires Typed(c) && SizedCond(c)
    ensures DecodeArtx(EncodeCond(c)) == if DecodableCond(c) then Some(CanonCond(c)) else None
  {
    hide EmitCond, CanonCond, DecodableCond, Operate, ReadOperand;
    var body := MAGIC + EmitCond(c);
    var pad := Zeros(Padding(|body|));
    assert EncodeCond(c)[..4] == MAGIC;
    assert EncodeCond(c)[4..] == EmitCond(c) + pad;
    ExecuteEmitted(c, pad, []);
    assert [] + [CondItem(CanonCond(c))] == [CondItem(CanonCond(c))];
    ExecutePadding(|pad|, [CondItem(CanonCond(c))]);
  }

  // ---- exactly which conditions survive ----

  predicate SidsFit(o: Operand) {
    match o
    case SidLit(sid) => CanonicalSid(sid)
    case Composite(items) => SidsFitAll(items)
    case _ => true
  }

  predicate SidsFitAll(items: seq<Operand>) {
    items == [] || (SidsFit(items[0]) && SidsFitAll(items[1..]))
  }

  /** Every SID has a 48-bit authority and at most 255 sub-authorities. */
  predicate SidsFitCond(c: Cond) {
    match c
    case Compare(_, l, r) => SidsFit(l) && SidsFit(r)
    case Member(_, o) => SidsFit(o)
    case Exists(o) => SidsFit(o)
    case NotExists(o) => SidsFit(o)
    case Not(d) => SidsFitCond(d)
    case And(a, b) => SidsFitCond(a) && SidsFitCond(b)
    case Or(a, b) => SidsFitCond(a) && SidsFitCond(b)
  }

  lemma TruncatedExact(sid: Sid)
    ensures Truncated(sid) == sid <==> CanonicalSid(sid)
  {
  }

  lemma {:induction false} CanonExact(o: Operand)
    ensures Canon(o) == o <==> SidsFit(o)
    decreases o, 0
  {
    match o
    case SidLit(sid) => TruncatedExact(sid);
    case Composite(items) => CanonAllExact(items);
    case _ =>
  }

  lemma {:induction false} CanonAllExact(items: seq<Operand>)
    ensures CanonAll(items) == items <==> SidsFitAll(items)
    decreases items, 1
  {
    hide Canon, SidsFit;
    if items != [] {
      var o, rest := items[0], items[1..];
      CanonExact(o);
      CanonAllExact(rest);
      assert items == [o] + rest && CanonAll(items) == [Canon(o)] + CanonAll(rest);
      assert CanonAll(items)[0] == Canon(o) && CanonAll(items)[1..] == CanonAll(rest);
    }
  }

  lemma {:induction false} CanonCondExact(c: Cond)
    ensures CanonCond(c) == c <==> SidsFitCond(c)
  {
    match c
    case Compare(_, l, r) => CanonExact(l); CanonExact(r);
    case Member(_, o) => CanonExact(o);
    case Exists(o) => CanonExact(o);
    case NotExists(o) => CanonExact(o);
    case Not(d) => CanonCondExact(d);
    case And(a, b) => CanonCondExact(a); CanonCondExact(b);
    case Or(a, b) => CanonCondExact(a); CanonCondExact(b);
  }

  lemma RoundTripSized(c: Cond)
    requires Typed(c) && SizedCond(c)
    ensures DecodeArtx(EncodeCond(c)) == Some(c) <==> DecodableCond(c) && SidsFitCond(c)
  {
    hide DecodeArtx, EncodeCond, CanonCond, DecodableCond, SidsFitCond;
    DecodeEncoded(c);
    CanonCondExact(c);
  }

  /**
   * Decoding inverts encoding exactly on the conditions whose composites hold no attribute
   * reference, whose SIDs the wire can carry, and whose lengths fit their 32-bit prefixes.
   */
  lemma ArtxRoundTripExact(c: Cond)
    requires Typed(c)
    ensures DecodeArtx(EncodeCond(c)) == Some(c) <==> DecodableCond(c) && SidsFitCond(c) && SizedCond(c)
  {
    hide DecodeArtx, EncodeCond, DecodableCond, SidsFitCond, SizedCond;
    if SizedCond(c) {
      RoundTripSized(c);
    } else if DecodeArtx(EncodeCond(c)) == Some(c) {
      DecodeIsStable(EncodeCond(c));
    }
  }

  /** An attribute in a composite encodes without complaint and then does not decode. */
  lemma AttributeInCompositeIsLost()
    ensures var c := Member(MemberOf, Composite([Attr(User, "a")]));
      Typed(c) && SizedCond(c) && DecodeArtx(EncodeCond(c)) == None
  {
    var items := [Attr(User, "a")];
    var o := Composite(items);
    assert items[1..] == [];
    assert Units("a") == [0x61] by { assert Units("a"[1..]) == []; }
    assert UnitBytes([0x61]) == [0x61, 0] by { assert UnitBytes([0x61][1..]) == []; }
    PowValues();
    assert TypedAll(items) && SizedAll(items) && |EmitAll(items)| == 7;
    DecodeEncoded(Member(MemberOf, o));
  }

  // ---- everything that decodes survives a second trip ----

  /** What the decoder produces: an operand that encodes back into no more bytes than it came from. */
  ghost predicate Stable(o: Operand) {
    TypedOperand(o) && Sized(o) && Decodable(o) && SidsFit(o)
  }

  ghost predicate StableAll(items: seq<Operand>) {
    TypedAll(items) && SizedAll(items) && PlainAll(items) && SidsFitAll(items)
  }

  lemma {:induction false} ReadStable(s: seq<byte>, attrs: bool)
    requires s != [] && ReadOperand(s, attrs).OperandAt?
    ensures var r := ReadOperand(s, attrs);
      Stable(r.o) && |Emit(r.o)| <= r.len && (!attrs ==> Plain(r.o))
    decreases |s|, 0
  {
    var tok, rest := s[0], s[1..];
    if tok != TOK_INT64 {
      var body := LpBody(rest).value;
      LeInverse(rest[..4]);
      assert |body| < Pow256(4);
      BodyStable(tok, body, attrs);
    } else {
      LeInverse(rest[..8]);
      PowValues();
    }
  }

  lemma {:induction false} BodyStable(tok: byte, body: seq<byte>, attrs: bool)
    requires |body| < Pow256(4) && OperandOf(tok, body, attrs).Some?
    ensures var o := OperandOf(tok, body, attrs).value;
      Stable(o) && |Emit(o)| <= 5 + |body| && (!attrs ==> Plain(o))
    decreases |body|, 2
  {
    if tok == TOK_SID {
      ParsedSidEncodes(body);
    } else if tok == TOK_COMPOSITE {
      ItemsStable(body);
    } else if tok != TOK_OCTET {
      Utf16Inverse(body);
    }
  }

  lemma {:induction false} ItemsStable(s: seq<byte>)
    requires |s| < Pow256(4) && ReadItems(s).Some?
    ensures var items := ReadItems(s).value; StableAll(items) && |EmitAll(items)| <= |s|
    decreases |s|, 1
  {
    hide ReadOperand, Emit, Sized;
    if s != [] {
      if s[0] == 0 {
        ItemsStable(s[1..]);
      } else {
        ReadStable(s, false);
        var r := ReadOperand(s, false);
        ItemsStable(s[r.len..]);
        assert ReadItems(s).value[1..] == ReadItems(s[r.len..]).value;
      }
    }
  }

  ghost predicate StableCond(c: Cond) {
    Typed(c) && SizedCond(c) && DecodableCond(c) && SidsFitCond(c)
  }

  ghost predicate StableItem(x: Item) {
    match x
    case OperandItem(o) => Stable(o)
    case CondItem(c) => StableCond(c)
  }

  ghost predicate StableStack(st: seq<Item>) {
    forall i :: 0 <= i < |st| ==> StableItem(st[i])
  }

  lemma OperateStable(tok: byte, st: seq<Item>)
    requires StableStack(st) && Operate(tok, st).Some?
    ensures StableStack(Operate(tok, st).value)
  {
    hide Stable, CompareFromByte, MemberFromByte;
    var d := |st|;
    assert StableItem(st[d - 1]);
    if d >= 2 {
      assert StableItem(st[d - 2]);
    }
    StableOperands(st);
  }

  lemma StableOperands(st: seq<Item>)
    requires StableStack(st)
    ensures forall i :: 0 <= i < |st| && st[i].OperandItem? ==>
      TypedOperand(st[i].o) && Sized(st[i].o) && Decodable(st[i].o) && SidsFit(st[i].o)
  {
    forall i | 0 <= i < |st| && st[i].OperandItem?
      ensures TypedOperand(st[i].o) && Sized(st[i].o) && Decodable(st[i].o) && SidsFit(st[i].o)
    {
      assert StableItem(st[i]);
    }
  }

  lemma {:induction false} ExecuteStable(s: seq<byte>, st: seq<Item>)
    requires StableStack(st) && Execute(s, st).Some?
    ensures StableCond(Execute(s, st).value)
    decreases |s|
  {
    hide ReadOperand, Operate, StableCond, Stable;
    if s == [] {
      assert StableItem(st[0]);
    } else if s[0] == 0 {
      ExecuteStable(s[1..], st);
    } else if OperandToken(s[0]) {
      ReadStable(s, true);
      var r := ReadOperand(s, true);
      ExecuteStable(s[r.len..], st + [OperandItem(r.o)]);
    } else {
      OperateStable(s[0], st);
      ExecuteStable(s[1..], Operate(s[0], st).value);
    }
  }

  /** For every byte string the decoder accepts, encoding its condition and decoding again gives it back. */
  lemma DecodeIsStable(bytes: seq<byte>)
    requires DecodeArtx(bytes).Some?
    ensures var c := DecodeArtx(bytes).value;
      Typed(c) && SizedCond(c) && DecodeArtx(EncodeCond(c)) == Some(c)
  {
    hide ReadOperand, Operate, Execute, EncodeCond;
    ExecuteStable(bytes[4..], []);
    RoundTripSized(DecodeArtx(bytes).value);
  }

  // ---- the decoder object ----

  class Decoder {
    const bytes: seq<byte>
    var pos: nat
    var stack: seq<Item>

    ghost predicate Valid()
      reads this
    {
      pos <= |bytes|
    }

    constructor (b: seq<byte>)
      ensures Valid() && bytes == b && pos == 0 && stack == []
    {
      bytes, pos, stack := b, 0, [];
    }

    method TakeInt64() returns (r: Option<int>)
      requires Valid()
      modifies this`pos
      ensures Valid()
      ensures if old(pos) + 10 <= |bytes|
        then FromLE(bytes[old(pos)..old(pos) + 8]) < TWO64
          && r == Some(Signed(FromLE(bytes[old(pos)..old(pos) + 8]), TWO64)) && pos == old(pos) + 10
        else r.None?
    {
      if pos + 8 > |bytes| { return None; }
      var word := bytes[pos..pos + 8];
      LeInverse(word);
      PowValues();
      var n := Signed(FromLE(word), TWO64);
      pos := pos + 8;
      if pos + 2 > |bytes| { return None; }
      pos := pos + 2;
      r := Some(n);
    }

    method TakeLpBytes() returns (r: Option<seq<byte>>)
      requires Valid()
      modifies this`pos
      ensures Valid() && r == LpBody(bytes[old(pos)..])
      ensures r.Some? ==> pos == old(pos) + 4 + |r.value|
    {
      if pos + 4 > |bytes| { return None; }
      ghost var s := bytes[pos..];
      var len := FromLE(bytes[pos..pos + 4]);
      assert bytes[pos..pos + 4] == s[..4];
      pos := pos + 4;
      if pos + len > |bytes| { return None; }
      r := Some(bytes[pos..pos + len]);
      assert r.value == s[4..4 + len];
      pos := pos + len;
    }

    method TakeUtf16Lp() returns (r: Option<string>)
      requires Valid()
      modifies this`pos
      ensures Valid()
      ensures var body := LpBody(bytes[old(pos)..]);
        if body.None? then r.None?
        else r == FromUtf16LE(body.value) && (r.Some? ==> pos == old(pos) + 4 + |body.value|)
    {
      var body := TakeLpBytes();
      if body.None? { return None; }
      r := FromUtf16LE(body.value);
    }

    /** The operand whose tag was just taken. */
    method TakeOperand(tok: byte, attrs: bool) returns (r: Option<Operand>)
      requires Valid() && pos > 0 && bytes[pos - 1] == tok
      modifies this`pos
      ensures Valid()
      ensures var h := ReadOperand(bytes[old(pos) - 1..], attrs);
        if h.NoOperand? then r.None? else r == Some(h.o) && pos == old(pos) - 1 + h.len
      decreases |bytes|, 0
    {
      hide ReadItems, ParseSid, FromUtf16LE, LpBody;
      ghost var s := bytes[pos - 1..];
      assert s[1..] == bytes[pos..];
      if tok == TOK_INT64 {
        if pos + 10 <= |bytes| {
          assert bytes[pos..pos + 8] == s[1..][..8];
        }
        var n := TakeInt64();
        r := if n.None? then None else Some(Int(n.value));
      } else if tok == TOK_STRING {
        var t := TakeUtf16Lp();
        r := if t.None? then None else Some(Str(t.value));
      } else if tok == TOK_OCTET {
        var body := TakeLpBytes();
        r := if body.None? then None else Some(Octet(body.value));
      } else if tok == TOK_SID {
        var body := TakeLpBytes();
        if body.None? { return None; }
        var sid := ParseSid(body.value);
        r := if sid.NoSid? then None else Some(SidLit(sid.sid));
      } else if tok == TOK_COMPOSITE {
        var body := TakeLpBytes();
        if body.None? { return None; }
        var items := DecodeComposite(body.value);
        r := if items.None? then None else Some(Composite(items.value));
      } else if attrs && ScopeFromByte(tok).Some? {
        var t := TakeUtf16Lp();
        r := if t.None? then None else Some(Attr(ScopeFromByte(tok).value, t.value));
      } else {
        r := None;
      }
    }

    static method DecodeComposite(body: seq<byte>) returns (r: Option<seq<Operand>>)
      ensures r == ReadItems(body)
      decreases |body|, 1
    {
      hide ReadOperand;
      var d := new Decoder(body);
      var items: seq<Operand> := [];
      assert body[0..] == body;
      ghost var all := ReadItems(body);
      if all.Some? {
        assert items + all.value == all.value;
      }
      while d.pos < |body|
        invariant d.Valid() && d.bytes == body
        invariant ReadItems(body) ==
          match ReadItems(body[d.pos..]) case None => None case Some(more) => Some(items + more)
        decreases |body| - d.pos
      {
        ghost var s := body[d.pos..];
        assert s[1..] == body[d.pos + 1..];
        var tok := body[d.pos];
        d.pos := d.pos + 1;
        if tok == 0 { continue; }
        var o := d.TakeOperand(tok, false);
        if o.None? { return None; }
        assert body[d.pos..] == s[ReadOperand(s, false).len..];
        ghost var more := ReadItems(body[d.pos..]);
        if more.Some? {
          assert items + ([o.value] + more.value) == (items + [o.value]) + more.value;
        }
        items := items + [o.value];
      }
      assert items + [] == items;
      r := Some(items);
    }

    method Decode() returns (r: Option<Cond>)
      requires Valid()
      modifies this
      ensures r == Execute(bytes[old(pos)..], old(stack))
    {
      hide ReadOperand, Operate;
      while pos < |bytes|
        invariant Valid()
        invariant Execute(bytes[pos..], stack) == Execute(bytes[old(pos)..], old(stack))
        decreases |bytes| - pos
      {
        ghost var s := bytes[pos..];
        assert s[1..] == bytes[pos + 1..];
        var tok := bytes[pos];
        pos := pos + 1;
        if tok == 0 { continue; }
        if OperandToken(tok) {
          var o := TakeOperand(tok, true);
          if o.None? { return None; }
          assert bytes[pos..] == s[ReadOperand(s, true).len..];
          stack := stack + [OperandItem(o.value)];
        } else {
          var st := Operate(tok, stack);
          if st.None? { return None; }
          stack := st.value;
        }
      }
      if |stack| != 1 { return None; }
      r := if stack[0].CondItem? then Some(stack[0].c) else None;
    }
  }

  method Decode(bytes: seq<byte>) returns (r: Option<Cond>)
    ensures r == DecodeArtx(bytes)
  {
    if |bytes| < 4 || bytes[..4] != MAGIC { return None; }
    var d := new Decoder(bytes[4..]);
    assert bytes[4..][0..] == bytes[4..];
    r := d.Decode();
  }
}
