/** Conditional-ACE expressions and their postfix bytecode (section 2.4.4.17 of MS-DTYP). */
module Condition {
  import opened Bytes
  import opened Utf16
  import opened SidWire

  datatype CompareOp = Eq | Ne | Lt | Le | Gt | Ge | Contains | AnyOf | NotContains | NotAnyOf

  datatype MemberOp =
    | MemberOf | DeviceMemberOf | MemberOfAny | DeviceMemberOfAny
    | NotMemberOf | NotDeviceMemberOf | NotMemberOfAny | NotDeviceMemberOfAny

  /** Where an attribute reference looks its name up. */
  datatype Scope = Local | User | Resource | Device

  datatype Operand =
    | Int(n: int)
    | Str(s: string)
    | SidLit(sid: Sid)
    | Octet(data: seq<byte>)
    | Composite(items: seq<Operand>)
    | Attr(scope: Scope, name: string)

  datatype Cond =
    | Compare(op: CompareOp, lhs: Operand, rhs: Operand)
    | Member(mop: MemberOp, operand: Operand)
    | Exists(o: Operand)
    | NotExists(o: Operand)
    | Not(c: Cond)
    | And(a: Cond, b: Cond)
    | Or(a: Cond, b: Cond)

  const TOK_INT64: byte := 0x04
  const TOK_STRING: byte := 0x10
  const TOK_OCTET: byte := 0x18
  const TOK_COMPOSITE: byte := 0x50
  const TOK_SID: byte := 0x51
  const TOK_EXISTS: byte := 0x87
  const TOK_NOT_EXISTS: byte := 0x8d
  const TOK_AND: byte := 0xa0
  const TOK_OR: byte := 0xa1
  const TOK_NOT: byte := 0xa2

  const SIGN_NEGATIVE: byte := 0x02
  const SIGN_NONE: byte := 0x03
  const BASE_DECIMAL: byte := 0x02

  function CompareByte(op: CompareOp): byte {
    match op
    case Eq => 0x80 case Ne => 0x81 case Lt => 0x82 case Le => 0x83 case Gt => 0x84 case Ge => 0x85
    case Contains => 0x86 case AnyOf => 0x88 case NotContains => 0x8e case NotAnyOf => 0x8f
  }

  function MemberByte(op: MemberOp): byte {
    match op
    case MemberOf => 0x89 case DeviceMemberOf => 0x8a case MemberOfAny => 0x8b case DeviceMemberOfAny => 0x8c
    case NotMemberOf => 0x90 case NotDeviceMemberOf => 0x91 case NotMemberOfAny => 0x92 case NotDeviceMemberOfAny => 0x93
  }

  function ScopeByte(s: Scope): byte {
    match s
    case Local => 0xf8 case User => 0xf9 case Resource => 0xfa case Device => 0xfb
  }

  const I64_MIN := -0x8000_0000_0000_0000
  const I64_MAX := 0x7fff_ffff_ffff_ffff
  const TWO64 := 0x1_0000_0000_0000_0000

  predicate IsI64(n: int) {
    I64_MIN <= n <= I64_MAX
  }

  /** A `u32` length, cut to 32 bits, and then the data. */
  function LenPrefixed(data: seq<byte>): (s: seq<byte>)
    ensures |s| == 4 + |data|
  {
    ToLE(|data|, 4) + data
  }

  /** Every value is in the range of its Rust type. */
  predicate TypedOperand(o: Operand) {
    match o
    case Int(n) => IsI64(n)
    case SidLit(sid) => TypedSid(sid)
    case Composite(items) => TypedAll(items)
    case _ => true
  }

  predicate TypedAll(items: seq<Operand>) {
    items == [] || (TypedOperand(items[0]) && TypedAll(items[1..]))
  }

  predicate Typed(c: Cond) {
    match c
    case Compare(_, l, r) => TypedOperand(l) && TypedOperand(r)
    case Member(_, o) => TypedOperand(o)
    case Exists(o) => TypedOperand(o)
    case NotExists(o) => TypedOperand(o)
    case Not(d) => Typed(d)
    case And(a, b) => Typed(a) && Typed(b)
    case Or(a, b) => Typed(a) && Typed(b)
  }

  function Emit(o: Operand): (s: seq<byte>)
    requires TypedOperand(o)
    ensures |s| >= 5
    decreases o, 0
  {
    match o
    case Int(n) =>
      [TOK_INT64] + ToLE(Wrap(n, TWO64), 8) + [if n < 0 then SIGN_NEGATIVE else SIGN_NONE, BASE_DECIMAL]
    case Str(t) => [TOK_STRING] + LenPrefixed(Utf16LE(t))
    case SidLit(sid) => [TOK_SID] + LenPrefixed(EncodeSid(sid))
    case Octet(data) => [TOK_OCTET] + LenPrefixed(data)
    case Composite(items) => [TOK_COMPOSITE] + LenPrefixed(EmitAll(items))
    case Attr(scope, name) => [ScopeByte(scope)] + LenPrefixed(Utf16LE(name))
  }

  function EmitAll(items: seq<Operand>): seq<byte>
    requires TypedAll(items)
    decreases items, 1
  {
    if items == [] then [] else Emit(items[0]) + EmitAll(items[1..])
  }

  function EmitCond(c: Cond): seq<byte>
    requires Typed(c)
  {
    match c
    case Compare(op, l, r) => Emit(l) + Emit(r) + [CompareByte(op)]
    case Member(op, o) => Emit(o) + [MemberByte(op)]
    case Exists(o) => Emit(o) + [TOK_EXISTS]
    case NotExists(o) => Emit(o) + [TOK_NOT_EXISTS]
    case Not(d) => EmitCond(d) + [TOK_NOT]
    case And(a, b) => EmitCond(a) + EmitCond(b) + [TOK_AND]
    case Or(a, b) => EmitCond(a) + EmitCond(b) + [TOK_OR]
  }

  /** The bytes of "artx". */
  const MAGIC: seq<byte> := [0x61, 0x72, 0x74, 0x78]

  /** How many bytes short of a 4-byte boundary a length is. */
  function Padding(n: nat): (k: nat)
    ensures k < 4 && (n + k) % 4 == 0
    ensures (k >= 1 ==> n % 4 != 0) && (k >= 2 ==> (n + 1) % 4 != 0) && (k >= 3 ==> (n + 2) % 4 != 0)
  {
    (4 - n % 4) % 4
  }

  /** The magic and the postfix tokens, filled with zeros to a whole number of 32-bit words. */
  function EncodeCond(c: Cond): (s: seq<byte>)
    requires Typed(c)
    ensures |s| % 4 == 0
  {
    var body := MAGIC + EmitCond(c);
    body + Zeros(Padding(|body|))
  }

  /** `Condition::encode`, padding in a loop. */
  method Encode(c: Cond) returns (out: seq<byte>)
    requires Typed(c)
    ensures out == EncodeCond(c)
  {
    hide EmitCond;
    out := MAGIC + EmitCond(c);
    ghost var body, k := out, 0;
    while |out| % 4 != 0
      invariant 0 <= k <= Padding(|body|) && |out| == |body| + k
      invariant out == body + Zeros(k)
      decreases Padding(|body|) - k
    {
      out := out + [0];
      k := k + 1;
    }
  }
}
