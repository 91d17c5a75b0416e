/** Conditional expressions as text (section 2.5.1 of MS-DTYP): the printer and the recursive-descent parser. */
module CondText {
  import opened Bytes
  import opened SidWire
  import opened Condition

  /**
   * The SID vocabulary, kept abstract: how a SID is written between `SID(` and `)`, and how it is
   * read back.
   */
  datatype SidText = SidText(show: Sid -> string, read: string -> Option<Sid>)

  // ---- characters ----

  predicate Digit(c: char) { '0' <= c <= '9' }

  predicate HexDigit(c: char) { Digit(c) || 'a' <= c <= 'f' || 'A' <= c <= 'F' }

  predicate IdentChar(c: char) {
    'a' <= c <= 'z' || 'A' <= c <= 'Z' || Digit(c) || c == '_' || c == ':' || c == '.'
  }

  predicate Space(c: char) { c == ' ' || c == '\t' || c == '\n' || c == '\r' }

  predicate NotQuote(c: char) { c != '"' }

  predicate NotClose(c: char) { c != ')' }

  function Lower(c: char): char {
    if 'A' <= c <= 'Z' then (c as int + 32) as char else c
  }

  function HexVal(c: char): nat
    requires HexDigit(c)
  {
    if Digit(c) then c as int - '0' as int
    else if 'a' <= c <= 'f' then c as int - 'a' as int + 10
    else c as int - 'A' as int + 10
  }

  // ---- the printer ----

  function DigitChar(d: nat): char
    requires d < 10
  {
    ('0' as int + d) as char
  }

  function Decimal(n: nat): (s: string)
    ensures s != "" && forall i :: 0 <= i < |s| ==> Digit(s[i])
  {
    if n < 10 then [DigitChar(n)] else Decimal(n / 10) + [DigitChar(n % 10)]
  }

  function PrintInt(n: int): string {
    if n < 0 then "-" + Decimal(-n) else Decimal(n)
  }

  function HexChar(d: nat): char
    requires d < 16
  {
    if d < 10 then DigitChar(d) else ('a' as int + (d - 10)) as char
  }

  function PrintHex(data: seq<byte>): string {
    if data == [] then "" else [HexChar(data[0] / 16), HexChar(data[0] % 16)] + PrintHex(data[1..])
  }

  function ScopeName(s: Scope): string {
    match s
    case Local => "Local" case User => "User" case Resource => "Resource" case Device => "Device"
  }

  function PrintOperand(h: SidText, o: Operand): string
    decreases o, 0
  {
    match o
    case Int(n) => PrintInt(n)
    case Str(t) => "\"" + t + "\""
    case SidLit(sid) => "SID(" + h.show(sid) + ")"
    case Octet(data) => "#" + PrintHex(data)
    case Composite(items) => "{" + PrintItems(h, items) + "}"
    case Attr(scope, name) => "@" + ScopeName(scope) + "." + name
  }

  function PrintItems(h: SidText, items: seq<Operand>): string
    decreases items, 1
  {
    if items == [] then ""
    else if |items| == 1 then PrintOperand(h, items[0])
    else PrintOperand(h, items[0]) + ", " + PrintItems(h, items[1..])
  }

  function CompareText(op: CompareOp): string {
    match op
    case Eq => "==" case Ne => "!=" case Lt => "<" case Le => "<=" case Gt => ">" case Ge => ">="
    case Contains => "Contains" case AnyOf => "Any_of" case NotContains => "Not_Contains" case NotAnyOf => "Not_Any_of"
  }

  function MemberText(op: MemberOp): string {
    match op
    case MemberOf => "Member_of" case DeviceMemberOf => "Device_Member_of"
    case MemberOfAny => "Member_of_Any" case DeviceMemberOfAny => "Device_Member_of_Any"
    case NotMemberOf => "Not_Member_of" case NotDeviceMemberOf => "Not_Device_Member_of"
    case NotMemberOfAny => "Not_Member_of_Any" case NotDeviceMemberOfAny => "Not_Device_Member_of_Any"
  }

  /** `fmt_condition`: `prec` is how tightly the context binds. */
  function Print(h: SidText, c: Cond, prec: nat): string {
    match c
    case Or(a, b) => Paren(prec > 1, Print(h, a, 1) + " || " + Print(h, b, 1))
    case And(a, b) => Paren(prec > 2, Print(h, a, 2) + " && " + Print(h, b, 2))
    case Not(d) => "!" + Print(h, d, 3)
    case Exists(o) => "Exists " + PrintOperand(h, o)
    case NotExists(o) => "Not_Exists " + PrintOperand(h, o)
    case Compare(op, l, r) => PrintOperand(h, l) + " " + CompareText(op) + " " + PrintOperand(h, r)
    case Member(op, o) => MemberText(op) + " " + PrintOperand(h, o)
  }

  function Paren(wrap: bool, s: string): string {
    if wrap then "(" + s + ")" else s
  }

  // ---- token readers ----

  datatype Got<T> = Fail | Got(v: T, rest: string)

  function SkipWs(s: string): (r: string)
    ensures |r| <= |s|
    ensures r == "" || !Space(r[0])
  {
    if s != "" && Space(s[0]) then SkipWs(s[1..]) else s
  }

  predicate Starts(s: string, t: string) {
    t <= s
  }

  predicate StartsCi(s: string, t: string) {
    |t| <= |s| && forall i :: 0 <= i < |t| ==> Lower(s[i]) == Lower(t[i])
  }

  /** `try_keyword`: a case-insensitive word that does not run on into an identifier character. */
  predicate Keyword(s: string, kw: string) {
    StartsCi(s, kw) && (|s| > |kw| ==> !IdentChar(s[|kw|]))
  }

  /** How many characters at the front satisfy `p`. */
  function Span(s: string, p: char -> bool): (n: nat)
    ensures n <= |s|
    ensures forall i :: 0 <= i < n ==> p(s[i])
    ensures n < |s| ==> !p(s[n])
  {
    if s != "" && p(s[0]) then 1 + Span(s[1..], p) else 0
  }

  function ReadString(s: string): (r: Got<string>)
    requires s != ""
    ensures r.Got? ==> |r.rest| < |s|
  {
    var n := Span(s[1..], NotQuote);
    if 1 + n == |s| then Fail else Got(s[1..1 + n], s[2 + n..])
  }

  function FromHex(s: string): seq<byte>
    requires |s| % 2 == 0 && forall i :: 0 <= i < |s| ==> HexDigit(s[i])
  {
    if s == "" then [] else [16 * HexVal(s[0]) + HexVal(s[1])] + FromHex(s[2..])
  }

  function ReadOctet(s: string): (r: Got<seq<byte>>)
    requires s != ""
    ensures r.Got? ==> |r.rest| < |s|
  {
    var n := Span(s[1..], HexDigit);
    if n == 0 || n % 2 != 0 then Fail else Got(FromHex(s[1..1 + n]), s[1 + n..])
  }

  function DecimalVal(s: string): nat
    requires forall i :: 0 <= i < |s| ==> Digit(s[i])
  {
    if s == "" then 0 else 10 * DecimalVal(s[..|s| - 1]) + HexVal(s[|s| - 1])
  }

  function HexNat(s: string): nat
    requires forall i :: 0 <= i < |s| ==> HexDigit(s[i])
  {
    if s == "" then 0 else 16 * HexNat(s[..|s| - 1]) + HexVal(s[|s| - 1])
  }

  /** `parse_signed_i64`: the magnitude must itself be an `i64` before it is negated. */
  function SignedVal(negative: bool, magnitude: nat): Option<int> {
    var m: int := magnitude;
    if m > I64_MAX then None else Some(if negative then -m else m)
  }

  /** Hexadecimal after `0x`, else decimal. */
  function ReadMagnitude(t: string): (r: Got<nat>)
    ensures r.Got? ==> |r.rest| < |t|
  {
    if Starts(t, "0x") || Starts(t, "0X") then
      var n := Span(t[2..], HexDigit);
      if n == 0 then Fail else Got(HexNat(t[2..2 + n]), t[2 + n..])
    else
      var n := Span(t, Digit);
      if n == 0 then Fail else Got(DecimalVal(t[..n]), t[n..])
  }

  function ReadInt(s: string): (r: Got<int>)
    requires s != ""
    ensures r.Got? ==> |r.rest| < |s|
  {
    var negative := s[0] == '-';
    match ReadMagnitude(if negative then s[1..] else s)
    case Fail => Fail
    case Got(m, rest) => match SignedVal(negative, m) case None => Fail case Some(v) => Got(v, rest)
  }

  function ReadName(s: string): (r: Got<string>)
    ensures r.Got? ==> |r.rest| < |s|
  {
    var n := Span(s, IdentChar);
    if n == 0 then Fail else Got(s[..n], s[n..])
  }

  function ScopeOf(s: string): Option<Scope> {
    if StartsCi(s, "Local") then Some(Local)
    else if StartsCi(s, "User") then Some(User)
    else if StartsCi(s, "Resource") then Some(Resource)
    else if StartsCi(s, "Device") then Some(Device)
    else None
  }

  function ReadAttr(s: string): (r: Got<Operand>)
    requires s != ""
    ensures r.Got? ==> |r.rest| < |s|
  {
    match ScopeOf(s[1..])
    case None => Fail
    case Some(scope) =>
      var n := 1 + |ScopeName(scope)|;
      if |s| <= n || s[n] != '.' then Fail
      else match ReadName(s[n + 1..]) case Fail => Fail case Got(name, rest) => Got(Attr(scope, name), rest)
  }

  function ReadSid(h: SidText, s: string): (r: Got<Operand>)
    ensures r.Got? ==> |r.rest| < |s|
  {
    if !StartsCi(s, "SID(") then Fail
    else
      var n := Span(s[4..], NotClose);
      if 4 + n == |s| then Fail
      else match h.read(s[4..4 + n]) case None => Fail case Some(sid) => Got(SidLit(sid), s[5 + n..])
  }

  /** `parse_operand`. */
  function ReadOperand(h: SidText, s0: string): (r: Got<Operand>)
    ensures r.Got? ==> |r.rest| < |s0|
    decreases |s0|, 0
  {
    var s := SkipWs(s0);
    if s == "" then Fail
    else if s[0] == '"' then
      (match ReadString(s) case Fail => Fail case Got(t, rest) => Got(Str(t), rest))
    else if s[0] == '#' then
      (match ReadOctet(s) case Fail => Fail case Got(d, rest) => Got(Octet(d), rest))
    else if s[0] == '{' then
      (match ReadItems(h, s[1..]) case Fail => Fail case Got(items, rest) => Got(Composite(items), rest))
    else if s[0] == '-' || Digit(s[0]) then
      (match ReadInt(s) case Fail => Fail case Got(n, rest) => Got(Int(n), rest))
    else if s[0] == '@' then ReadAttr(s)
    else if s[0] == 'S' || s[0] == 's' then ReadSid(h, s)
    else Fail
  }

  /** The loop of `parse_composite`, after the opening brace. */
  function ReadItems(h: SidText, s0: string): (r: Got<seq<Operand>>)
    ensures r.Got? ==> |r.rest| <= |s0|
    decreases |s0|, 1
  {
    var s := SkipWs(s0);
    if Starts(s, "}") then Got([], s[1..])
    else
      match ReadOperand(h, s)
      case Fail => Fail
      case Got(o, rest) =>
        var t := SkipWs(rest);
        if Starts(t, ",") then
          (match ReadItems(h, t[1..]) case Fail => Fail case Got(items, rest') => Got([o] + items, rest'))
        else if Starts(t, "}") then Got([o], t[1..])
        else Fail
  }

  // ---- operands read back ----

  /** The SIDs the vocabulary reads back as it writes them. */
  predicate SidShown(h: SidText, sid: Sid) {
    h.read(h.show(sid)) == Some(sid) && ')' !in h.show(sid)
  }

  /** What the text syntax can express. The least `i64` is not in it: its magnitude does not parse. */
  predicate Printable(h: SidText, o: Operand) {
    match o
    case Int(n) => I64_MIN < n <= I64_MAX
    case Str(t) => '"' !in t
    case SidLit(sid) => SidShown(h, sid)
    case Octet(data) => data != []
    case Composite(items) => AllPrintable(h, items)
    case Attr(_, name) => name != "" && forall i :: 0 <= i < |name| ==> IdentChar(name[i])
  }

  predicate AllPrintable(h: SidText, items: seq<Operand>) {
    items == [] || (Printable(h, items[0]) && AllPrintable(h, items[1..]))
  }

  /** What may follow an operand: nothing that would run into it. */
  predicate OperandEnd(rest: string) {
    rest == "" || rest[0] == ' ' || rest[0] == ')' || rest[0] == ',' || rest[0] == '}'
  }

  lemma {:induction false} SpanExact(a: string, rest: string, p: char -> bool)
    requires forall i :: 0 <= i < |a| ==> p(a[i])
    requires rest == "" || !p(rest[0])
    ensures Span(a + rest, p) == |a|
    decreases |a|
  {
    if a == "" {
      assert a + rest == rest;
    } else {
      assert (a + rest)[1..] == a[1..] + rest;
      SpanExact(a[1..], rest, p);
    }
  }

  lemma NoSkip(s: string)
    requires s == "" || !Space(s[0])
    ensures SkipWs(s) == s
  {
  }

  lemma {:induction false} DecimalRoundTrip(n: nat)
    ensures DecimalVal(Decimal(n)) == n
  {
    if n < 10 {
      assert Decimal(n)[..0] == "";
    } else {
      DecimalRoundTrip(n / 10);
      assert Decimal(n)[..|Decimal(n)| - 1] == Decimal(n / 10);
    }
  }

  /** No leading zero before another digit, and so no `0x`. */
  lemma {:induction false} DecimalHead(n: nat)
    ensures Decimal(n)[0] == '0' ==> n == 0
  {
    if n >= 10 {
      DecimalHead(n / 10);
      assert Decimal(n)[0] == Decimal(n / 10)[0];
    }
  }

  lemma NotHex(n: nat, rest: string)
    requires OperandEnd(rest)
    ensures !Starts(Decimal(n) + rest, "0x") && !Starts(Decimal(n) + rest, "0X")
  {
    DecimalHead(n);
    var t := Decimal(n) + rest;
    if |t| >= 2 {
      assert t[1] == (if |Decimal(n)| > 1 then Decimal(n)[1] else rest[0]);
      assert t[1] != 'x' && t[1] != 'X';
    }
  }

  lemma MagnitudeRoundTrip(m: nat, rest: string)
    requires OperandEnd(rest)
    ensures ReadMagnitude(Decimal(m) + rest) == Got(m, rest)
  {
    hide Decimal, DecimalVal, HexNat, Starts;
    var d := Decimal(m);
    NotHex(m, rest);
    SpanExact(d, rest, Digit);
    DecimalRoundTrip(m);
    assert (d + rest)[..|d|] == d && (d + rest)[|d|..] == rest;
  }

  lemma IntRoundTrip(n: int, rest: string)
    requires I64_MIN < n <= I64_MAX && OperandEnd(rest)
    ensures ReadInt(PrintInt(n) + rest) == Got(n, rest)
  {
    hide Decimal, ReadMagnitude;
    var s := PrintInt(n) + rest;
    var m: nat := if n < 0 then -n else n;
    MagnitudeRoundTrip(m, rest);
    assert n < 0 ==> s[1..] == Decimal(m) + rest;
    assert n >= 0 ==> s[0] == Decimal(m)[0];
  }

  /** The least `i64` prints as text whose magnitude is one too large to read. */
  lemma LeastIntIsLost(rest: string)
    requires OperandEnd(rest)
    ensures ReadInt(PrintInt(I64_MIN) + rest) == Fail
  {
    hide Decimal, ReadMagnitude;
    var s := PrintInt(I64_MIN) + rest;
    MagnitudeRoundTrip(-I64_MIN, rest);
    assert s[1..] == Decimal(-I64_MIN) + rest;
  }

  lemma {:induction false} HexRoundTrip(data: seq<byte>)
    ensures |PrintHex(data)| == 2 * |data|
    ensures forall i :: 0 <= i < |PrintHex(data)| ==> HexDigit(PrintHex(data)[i])
    ensures FromHex(PrintHex(data)) == data
  {
    if data != [] {
      HexRoundTrip(data[1..]);
      var p := PrintHex(data);
      assert p[2..] == PrintHex(data[1..]);
      assert data == [data[0]] + data[1..];
    }
  }

  lemma OctetRoundTrip(data: seq<byte>, rest: string)
    requires data != [] && OperandEnd(rest)
    ensures ReadOctet("#" + PrintHex(data) + rest) == Got(data, rest)
  {
    HexRoundTrip(data);
    var x, s := PrintHex(data), "#" + PrintHex(data) + rest;
    assert s[1..] == x + rest;
    SpanExact(x, rest, HexDigit);
    assert s[1..1 + |x|] == x && s[1 + |x|..] == rest;
  }

  lemma StringRoundTrip(t: string, rest: string)
    requires '"' !in t
    ensures ReadString("\"" + t + "\"" + rest) == Got(t, rest)
  {
    var s := "\"" + t + "\"" + rest;
    assert s[1..] == t + ("\"" + rest);
    SpanExact(t, "\"" + rest, NotQuote);
    assert s[1..1 + |t|] == t && s[2 + |t|..] == rest;
  }

  lemma SidRoundTrip(h: SidText, sid: Sid, rest: string)
    requires SidShown(h, sid)
    ensures ReadSid(h, "SID(" + h.show(sid) + ")" + rest) == Got(SidLit(sid), rest)
  {
    var t := h.show(sid);
    var s := "SID(" + t + ")" + rest;
    assert s[4..] == t + (")" + rest);
    SpanExact(t, ")" + rest, NotClose);
    assert s[4..4 + |t|] == t && s[5 + |t|..] == rest;
  }

  lemma ScopeRoundTrip(scope: Scope, tail: string)
    ensures ScopeOf(ScopeName(scope) + "." + tail) == Some(scope)
  {
    var s := ScopeName(scope) + "." + tail;
    assert scope.User? ==> Lower(s[0]) == 'u';
    assert scope.Resource? ==> Lower(s[0]) == 'r';
    assert scope.Device? ==> Lower(s[0]) == 'd';
  }

  lemma AttrRoundTrip(scope: Scope, name: string, rest: string)
    requires name != "" && (forall i :: 0 <= i < |name| ==> IdentChar(name[i])) && OperandEnd(rest)
    ensures ReadAttr("@" + ScopeName(scope) + "." + name + rest) == Got(Attr(scope, name), rest)
  {
    hide ScopeName, ScopeOf;
    var s := "@" + ScopeName(scope) + "." + name + rest;
    var front := "@" + ScopeName(scope) + ".";
    assert s[1..] == ScopeName(scope) + "." + (name + rest);
    ScopeRoundTrip(scope, name + rest);
    assert s == front + (name + rest);
    assert s[|front| - 1] == '.' && s[|front|..] == name + rest;
    SpanExact(name, rest, IdentChar);
    assert (name + rest)[..|name|] == name && (name + rest)[|name|..] == rest;
  }

  /** The first character of an operand, by which `parse_operand` tells its kind. */
  lemma OperandHead(h: SidText, o: Operand)
    requires Printable(h, o)
    ensures var t := PrintOperand(h, o);
      && t != ""
      && match o
         case Int(n) => t[0] == '-' || Digit(t[0])
         case Str(_) => t[0] == '"'
         case SidLit(_) => t[0] == 'S'
         case Octet(_) => t[0] == '#'
         case Composite(_) => t[0] == '{'
         case Attr(_, _) => t[0] == '@'
  {
  }

  lemma {:induction false} OperandRoundTrip(h: SidText, o: Operand, rest: string)
    requires Printable(h, o) && OperandEnd(rest)
    ensures ReadOperand(h, PrintOperand(h, o) + rest) == Got(o, rest)
    decreases o, 0
  {
    hide ReadInt, ReadOctet, ReadString, ReadSid, ReadAttr, ReadItems;
    OperandHead(h, o);
    var s := PrintOperand(h, o) + rest;
    NoSkip(s);
    match o
    case Int(n) => IntRoundTrip(n, rest);
    case Str(t) => StringRoundTrip(t, rest);
    case SidLit(sid) => SidRoundTrip(h, sid, rest);
    case Octet(data) => OctetRoundTrip(data, rest);
    case Composite(items) =>
      ItemsRoundTrip(h, items, rest);
      assert s[1..] == PrintItems(h, items) + ("}" + rest);
    case Attr(scope, name) => AttrRoundTrip(scope, name, rest);
  }

  lemma {:induction false} ItemsRoundTrip(h: SidText, items: seq<Operand>, rest: string)
    requires AllPrintable(h, items)
    ensures ReadItems(h, PrintItems(h, items) + ("}" + rest)) == Got(items, rest)
    decreases items, 1
  {
    hide ReadOperand, Printable, PrintOperand;
    var s := PrintItems(h, items) + ("}" + rest);
    if items == [] {
      assert s == "}" + rest;
      NoSkip(s);
    } else {
      var p := PrintOperand(h, items[0]);
      OperandHead(h, items[0]);
      FirstOfOperand(h, items[0]);
      NoSkip(s);
      if |items| == 1 {
        OperandRoundTrip(h, items[0], "}" + rest);
        NoSkip("}" + rest);
        assert items == [items[0]];
      } else {
        var more := PrintItems(h, items[1..]) + ("}" + rest);
        assert s == p + (", " + more);
        OperandRoundTrip(h, items[0], ", " + more);
        NoSkip(", " + more);
        assert (", " + more)[1..] == " " + more;
        SkipLeadingSpace(h, more);
        ItemsRoundTrip(h, items[1..], rest);
        assert items == [items[0]] + items[1..];
      }
    }
  }

  lemma FirstOfOperand(h: SidText, o: Operand)
    requires Printable(h, o)
    ensures PrintOperand(h, o) != "" && !Space(PrintOperand(h, o)[0]) && PrintOperand(h, o)[0] != '}'
  {
    OperandHead(h, o);
  }

  lemma SkipLeadingSpace(h: SidText, s: string)
    ensures SkipWs(" " + s) == SkipWs(s)
    ensures ReadItems(h, " " + s) == ReadItems(h, s)
    ensures ReadOperand(h, " " + s) == ReadOperand(h, s)
  {
    assert (" " + s)[1..] == s;
  }
}
