/**
 * The recursive-descent parser for conditional expressions, and what it makes of printed text: the
 * same expression with its `&&` and `||` chains nested to the left.
 */
module CondParse {
  import opened Bytes
  import opened SidWire
  import opened Condition
  import opened CondText

  // ---- operators ----

  const MEMBER_OPS: seq<MemberOp> := [
    NotDeviceMemberOfAny, NotMemberOfAny, NotDeviceMemberOf, NotMemberOf,
    DeviceMemberOfAny, DeviceMemberOf, MemberOfAny, MemberOf]

  const COMPARE_SYMBOLS: seq<CompareOp> := [Eq, Ne, Le, Ge, Lt, Gt]

  const COMPARE_WORDS: seq<CompareOp> := [Contains, AnyOf, NotContains, NotAnyOf]

  /** The first of `ops` whose keyword is here. */
  function FirstMember(s: string, ops: seq<MemberOp>): (r: Option<MemberOp>)
    ensures r.Some? ==> |MemberText(r.value)| <= |s|
  {
    if ops == [] then None
    else if Keyword(s, MemberText(ops[0])) then Some(ops[0])
    else FirstMember(s, ops[1..])
  }

  function FirstSymbol(s: string, ops: seq<CompareOp>): (r: Option<CompareOp>)
    ensures r.Some? ==> |CompareText(r.value)| <= |s|
  {
    if ops == [] then None
    else if Starts(s, CompareText(ops[0])) then Some(ops[0])
    else FirstSymbol(s, ops[1..])
  }

  function FirstWord(s: string, ops: seq<CompareOp>): (r: Option<CompareOp>)
    ensures r.Some? ==> |CompareText(r.value)| <= |s|
  {
    if ops == [] then None
    else if Keyword(s, CompareText(ops[0])) then Some(ops[0])
    else FirstWord(s, ops[1..])
  }

  /** `parse_compare_op`. */
  function ReadCompareOp(s: string): (r: Got<CompareOp>)
    ensures r.Got? ==> |r.rest| < |s|
  {
    match FirstSymbol(s, COMPARE_SYMBOLS)
    case Some(op) => Got(op, s[|CompareText(op)|..])
    case None =>
      match FirstWord(s, COMPARE_WORDS)
      case Some(op) => Got(op, s[|CompareText(op)|..])
      case None => Fail
  }

  // ---- the grammar ----

  function ParseExpr(h: SidText, s: string): (r: Got<Cond>)
    ensures r.Got? ==> |r.rest| < |s|
    decreases |s|, 4
  {
    match ParseAnd(h, s)
    case Fail => Fail
    case Got(lhs, rest) => OrLoop(h, lhs, rest)
  }

  function OrLoop(h: SidText, lhs: Cond, s: string): (r: Got<Cond>)
    ensures r.Got? ==> |r.rest| <= |s|
    decreases |s|, 5
  {
    var t := SkipWs(s);
    if Starts(t, "||") then
      match ParseAnd(h, SkipWs(t[2..]))
      case Fail => Fail
      case Got(rhs, rest) => OrLoop(h, Or(lhs, rhs), rest)
    else Got(lhs, t)
  }

  function ParseAnd(h: SidText, s: string): (r: Got<Cond>)
    ensures r.Got? ==> |r.rest| < |s|
    decreases |s|, 3
  {
    match ParseUnary(h, s)
    case Fail => Fail
    case Got(lhs, rest) => AndLoop(h, lhs, rest)
  }

  function AndLoop(h: SidText, lhs: Cond, s: string): (r: Got<Cond>)
    ensures r.Got? ==> |r.rest| <= |s|
    decreases |s|, 5
  {
    var t := SkipWs(s);
    if Starts(t, "&&") then
      match ParseUnary(h, SkipWs(t[2..]))
      case Fail => Fail
      case Got(rhs, rest) => AndLoop(h, And(lhs, rhs), rest)
    else Got(lhs, t)
  }

  function ParseUnary(h: SidText, s: string): (r: Got<Cond>)
    ensures r.Got? ==> |r.rest| < |s|
    decreases |s|, 2
  {
    var t := SkipWs(s);
    if Starts(t, "!") then
      match ParseUnary(h, SkipWs(t[1..]))
      case Fail => Fail
      case Got(c, rest) => Got(Not(c), rest)
    else ParsePrimary(h, t)
  }

  function ParsePrimary(h: SidText, s: string): (r: Got<Cond>)
    ensures r.Got? ==> |r.rest| < |s|
    decreases |s|, 1
  {
    var t := SkipWs(s);
    if Starts(t, "(") then
      match ParseExpr(h, t[1..])
      case Fail => Fail
      case Got(c, rest) =>
        var u := SkipWs(rest);
        if Starts(u, ")") then Got(c, u[1..]) else Fail
    else ParseTest(h, t)
  }

  /** The part of `parse_primary` after the parenthesised group: one test on operands. */
  function ParseTest(h: SidText, t: string): (r: Got<Cond>)
    ensures r.Got? ==> |r.rest| < |t|
  {
    if Keyword(t, "Exists") then
      match ReadOperand(h, t[6..]) case Fail => Fail case Got(o, rest) => Got(Exists(o), rest)
    else if Keyword(t, "Not_Exists") then
      match ReadOperand(h, t[10..]) case Fail => Fail case Got(o, rest) => Got(NotExists(o), rest)
    else
      match FirstMember(t, MEMBER_OPS)
      case Some(op) =>
        (match ReadOperand(h, t[|MemberText(op)|..]) case Fail => Fail case Got(o, rest) => Got(Member(op, o), rest))
      case None => ParseComparison(h, t)
  }

  function ParseComparison(h: SidText, t: string): (r: Got<Cond>)
    ensures r.Got? ==> |r.rest| < |t|
  {
    match ReadOperand(h, t)
    case Fail => Fail
    case Got(l, rest) =>
      match ReadCompareOp(SkipWs(rest))
      case Fail => Fail
      case Got(op, rest') =>
        match ReadOperand(h, rest')
        case Fail => Fail
        case Got(r, rest'') => Got(Compare(op, l, r), rest'')
  }

  // ---- the whole text ----

  /** Unicode white space, which `str::trim` removes. */
  predicate WhiteSpace(c: char) {
    || '\t' <= c <= '\r' || c == ' ' || c == '\U{85}' || c == '\U{a0}' || c == '\U{1680}'
    || '\U{2000}' <= c <= '\U{200a}' || c == '\U{2028}' || c == '\U{2029}' || c == '\U{202f}'
    || c == '\U{205f}' || c == '\U{3000}'
  }

  function Trim(s: string): string {
    if s == "" then s
    else if WhiteSpace(s[0]) then Trim(s[1..])
    else if WhiteSpace(s[|s| - 1]) then Trim(s[..|s| - 1])
    else s
  }

  /** The scan of `strip_outer_parens`: the depth returns to zero before the last character. */
  predicate ClosesEarly(s: string, depth: int) {
    if s == "" then false
    else if s[0] == '(' then ClosesEarly(s[1..], depth + 1)
    else if s[0] == ')' then (depth == 1 && |s| > 1) || ClosesEarly(s[1..], depth - 1)
    else ClosesEarly(s[1..], depth)
  }

  predicate Strips(s: string) {
    |s| >= 2 && s[0] == '(' && s[|s| - 1] == ')' && !ClosesEarly(s, 0)
  }

  function StripOuter(s: string): string {
    if Strips(s) then s[1..|s| - 1] else s
  }

  /** `parse`. */
  function ParseText(h: SidText, text: string): Option<Cond> {
    match ParseExpr(h, StripOuter(Trim(text)))
    case Fail => None
    case Got(c, rest) => if SkipWs(rest) == "" then Some(c) else None
  }

  // ---- what printed text means ----

  /** The `&&` and `||` chains nested to the left; nothing else moves. */
  function Norm(c: Cond): Cond
    decreases c, 0
  {
    match c
    case And(a, b) => FoldAnd(Norm(a), b)
    case Or(a, b) => FoldOr(Norm(a), b)
    case Not(d) => Not(Norm(d))
    case _ => c
  }

  function FoldAnd(lhs: Cond, c: Cond): Cond
    decreases c, 1
  {
    if c.And? then FoldAnd(FoldAnd(lhs, c.a), c.b) else And(lhs, Norm(c))
  }

  function FoldOr(lhs: Cond, c: Cond): Cond
    decreases c, 1
  {
    if c.Or? then FoldOr(FoldOr(lhs, c.a), c.b) else Or(lhs, Norm(c))
  }

  predicate PrintableCond(h: SidText, c: Cond) {
    match c
    case Compare(_, l, r) => Printable(h, l) && Printable(h, r)
    case Member(_, o) => Printable(h, o)
    case Exists(o) => Printable(h, o)
    case NotExists(o) => Printable(h, o)
    case Not(d) => PrintableCond(h, d)
    case And(a, b) => PrintableCond(h, a) && PrintableCond(h, b)
    case Or(a, b) => PrintableCond(h, a) && PrintableCond(h, b)
  }

  // ---- keywords ----

  predicate SameCi(a: string, b: string) {
    |a| == |b| && forall i :: 0 <= i < |a| ==> Lower(a[i]) == Lower(b[i])
  }

  predicate Word(s: string) {
    forall i :: 0 <= i < |s| ==> IdentChar(s[i])
  }

  /** A word followed by a space is one keyword and no other. */
  lemma KeywordExact(w: string, kw: string, x: string)
    requires Word(w) && Word(kw)
    ensures Keyword(w + " " + x, kw) <==> SameCi(w, kw)
  {
    var s := w + " " + x;
    if |kw| < |w| {
      assert s[|kw|] == w[|kw|];
    } else if |kw| > |w| {
      assert s[|w|] == ' ';
      assert Lower(kw[|w|]) != ' ';
    } else {
      assert s[|kw|] == ' ';
      assert forall i :: 0 <= i < |w| ==> s[i] == w[i];
    }
  }

  lemma PlainWords(op: MemberOp)
    requires op.MemberOf? || op.DeviceMemberOf? || op.MemberOfAny? || op.DeviceMemberOfAny?
    ensures Word(MemberText(op))
  {
  }

  lemma NegatedWords(op: MemberOp)
    requires op.NotMemberOf? || op.NotDeviceMemberOf? || op.NotMemberOfAny? || op.NotDeviceMemberOfAny?
    ensures Word(MemberText(op))
  {
  }

  lemma MemberIsWord(op: MemberOp)
    ensures Word(MemberText(op))
  {
    hide MemberText;
    if op.MemberOf? || op.DeviceMemberOf? || op.MemberOfAny? || op.DeviceMemberOfAny? {
      PlainWords(op);
    } else {
      NegatedWords(op);
    }
  }

  /** Length and first letter tell the membership keywords apart. */
  lemma MemberWords(op: MemberOp, op': MemberOp)
    ensures SameCi(MemberText(op), MemberText(op')) <==> op == op'
    ensures !SameCi(MemberText(op), "Exists") && !SameCi(MemberText(op), "Not_Exists")
  {
    hide SameCi, Lower;
    var a, b := MemberText(op), MemberText(op');
    if SameCi(a, b) {
      SameLook(a, b);
    } else {
      SameSelf(a);
    }
    if SameCi(a, "Exists") {
      SameLook(a, "Exists");
    }
    if SameCi(a, "Not_Exists") {
      SameLook(a, "Not_Exists");
    }
  }

  lemma SameLook(a: string, b: string)
    requires SameCi(a, b) && a != "" && 'A' <= a[0] <= 'Z' && 'A' <= b[0] <= 'Z'
    ensures |a| == |b| && a[0] == b[0]
  {
    assert Lower(a[0]) == Lower(b[0]);
  }

  lemma SameSelf(a: string)
    ensures SameCi(a, a)
  {
  }

  lemma {:induction false} MemberFound(op: MemberOp, x: string, ops: seq<MemberOp>)
    requires op in ops
    ensures FirstMember(MemberText(op) + " " + x, ops) == Some(op)
  {
    hide MemberText;
    MemberWords(op, ops[0]);
    MemberIsWord(op);
    MemberIsWord(ops[0]);
    KeywordExact(MemberText(op), MemberText(ops[0]), x);
    if ops[0] != op {
      MemberFound(op, x, ops[1..]);
    }
  }

  lemma {:induction false} NoMember(s: string, ops: seq<MemberOp>)
    requires s != "" && Lower(s[0]) !in {'n', 'd', 'm'}
    ensures FirstMember(s, ops) == None
  {
    if ops != [] {
      assert Lower(MemberText(ops[0])[0]) in {'n', 'd', 'm'};
      NoMember(s, ops[1..]);
    }
  }

  predicate IsSymbol(op: CompareOp) {
    op.Eq? || op.Ne? || op.Lt? || op.Le? || op.Gt? || op.Ge?
  }

  lemma SymbolFound(op: CompareOp, x: string)
    requires IsSymbol(op)
    ensures FirstSymbol(CompareText(op) + " " + x, COMPARE_SYMBOLS) == Some(op)
  {
    var s := CompareText(op) + " " + x;
    assert s[0] == CompareText(op)[0];
    assert |CompareText(op)| == 1 ==> s[1] == ' ';
    assert |CompareText(op)| == 2 ==> s[1] == CompareText(op)[1];
    var k := match op case Eq => 0 case Ne => 1 case Le => 2 case Ge => 3 case Lt => 4 case _ => 5;
    forall i | 0 <= i < k
      ensures !Starts(s, CompareText(COMPARE_SYMBOLS[i]))
    {
      var t := CompareText(COMPARE_SYMBOLS[i]);
      assert t[0] != s[0] || (|t| == 2 && t[1] != s[1]);
    }
    SymbolSearch(k, s, COMPARE_SYMBOLS);
  }

  lemma {:induction false} SymbolSearch(k: nat, s: string, ops: seq<CompareOp>)
    requires k < |ops| && Starts(s, CompareText(ops[k]))
    requires forall i :: 0 <= i < k ==> !Starts(s, CompareText(ops[i]))
    ensures FirstSymbol(s, ops) == Some(ops[k])
  {
    if k > 0 {
      SymbolSearch(k - 1, s, ops[1..]);
    }
  }

  lemma {:induction false} NoSymbol(op: CompareOp, x: string, ops: seq<CompareOp>)
    requires !IsSymbol(op) && forall i :: 0 <= i < |ops| ==> IsSymbol(ops[i])
    ensures FirstSymbol(CompareText(op) + " " + x, ops) == None
  {
    if ops != [] {
      assert (CompareText(op) + " " + x)[0] == CompareText(op)[0];
      assert CompareText(ops[0])[0] != CompareText(op)[0];
      NoSymbol(op, x, ops[1..]);
    }
  }

  lemma CompareWords(op: CompareOp, op': CompareOp)
    requires !IsSymbol(op) && !IsSymbol(op')
    ensures Word(CompareText(op))
    ensures SameCi(CompareText(op), CompareText(op')) <==> op == op'
  {
  }

  lemma {:induction false} WordFound(op: CompareOp, x: string, ops: seq<CompareOp>)
    requires op in ops && forall i :: 0 <= i < |ops| ==> !IsSymbol(ops[i])
    ensures FirstWord(CompareText(op) + " " + x, ops) == Some(op)
  {
    hide CompareText;
    CompareWords(op, ops[0]);
    CompareWords(ops[0], op);
    KeywordExact(CompareText(op), CompareText(ops[0]), x);
    if ops[0] != op {
      WordFound(op, x, ops[1..]);
    }
  }

  lemma CompareOpFound(op: CompareOp, x: string)
    ensures ReadCompareOp(CompareText(op) + " " + x) == Got(op, " " + x)
  {
    hide CompareText;
    assert (CompareText(op) + " " + x)[|CompareText(op)|..] == " " + x;
    if IsSymbol(op) {
      SymbolFound(op, x);
    } else {
      NoSymbol(op, x, COMPARE_SYMBOLS);
      WordFound(op, x, COMPARE_WORDS);
    }
  }

  // ---- the parser follows the printer ----

  /** What may follow a printed condition. */
  predicate CondEnd(rest: string) {
    rest == "" || rest[0] == ' ' || rest[0] == ')'
  }

  lemma TestRoundTrip(h: SidText, c: Cond, rest: string)
    requires PrintableCond(h, c) && !c.And? && !c.Or? && !c.Not? && CondEnd(rest)
    ensures var s := Print(h, c, 3) + rest;
      && s != "" && !Space(s[0]) && s[0] != '(' && s[0] != '!'
      && ParseTest(h, s) == Got(c, rest)
  {
    hide ReadOperand, PrintOperand, Printable, Keyword, FirstMember, ParseComparison, CompareText, MemberText;
    var s := Print(h, c, 3) + rest;
    match c
    case Exists(o) => ExistsRoundTrip(h, o, rest);
    case NotExists(o) => NotExistsRoundTrip(h, o, rest);
    case Member(op, o) =>
      MemberRoundTrip(h, op, o, rest);
      MemberHead(op);
      assert s[0] == MemberText(op)[0];
    case Compare(op, l, r) => CompareRoundTrip(h, op, l, r, rest);
  }

  lemma OperandAfterSpace(h: SidText, o: Operand, rest: string)
    requires Printable(h, o) && CondEnd(rest)
    ensures ReadOperand(h, " " + (PrintOperand(h, o) + rest)) == Got(o, rest)
  {
    hide ReadOperand, PrintOperand, Printable;
    OperandRoundTrip(h, o, rest);
    SkipLeadingSpace(h, PrintOperand(h, o) + rest);
  }

  lemma ExistsRoundTrip(h: SidText, o: Operand, rest: string)
    requires Printable(h, o) && CondEnd(rest)
    ensures ParseTest(h, "Exists " + PrintOperand(h, o) + rest) == Got(Exists(o), rest)
  {
    hide ReadOperand, PrintOperand, Printable;
    var x := PrintOperand(h, o) + rest;
    KeywordExact("Exists", "Exists", x);
    var s := "Exists" + " " + x;
    assert "Exists " + PrintOperand(h, o) + rest == s;
    assert s[6..] == " " + x;
    OperandAfterSpace(h, o, rest);
  }

  lemma NotExistsRoundTrip(h: SidText, o: Operand, rest: string)
    requires Printable(h, o) && CondEnd(rest)
    ensures ParseTest(h, "Not_Exists " + PrintOperand(h, o) + rest) == Got(NotExists(o), rest)
  {
    hide ReadOperand, PrintOperand, Printable;
    var x := PrintOperand(h, o) + rest;
    KeywordExact("Not_Exists", "Not_Exists", x);
    KeywordExact("Not_Exists", "Exists", x);
    var s := "Not_Exists" + " " + x;
    assert "Not_Exists " + PrintOperand(h, o) + rest == s;
    assert s[10..] == " " + x;
    OperandAfterSpace(h, o, rest);
  }

  lemma MemberRoundTrip(h: SidText, op: MemberOp, o: Operand, rest: string)
    requires Printable(h, o) && CondEnd(rest)
    ensures ParseTest(h, MemberText(op) + " " + PrintOperand(h, o) + rest) == Got(Member(op, o), rest)
  {
    hide ReadOperand, PrintOperand, Printable, MemberText, Keyword;
    var x, w := PrintOperand(h, o) + rest, MemberText(op);
    var s := w + " " + x;
    assert w + " " + PrintOperand(h, o) + rest == s;
    MemberIsWord(op);
    MemberWords(op, op);
    KeywordExact(w, "Exists", x);
    KeywordExact(w, "Not_Exists", x);
    MemberFound(op, x, MEMBER_OPS);
    assert s[|w|..] == " " + x;
    OperandAfterSpace(h, o, rest);
  }

  lemma MemberHead(op: MemberOp)
    ensures MemberText(op) != "" && MemberText(op)[0] in {'N', 'D', 'M'}
  {
  }

  /** Text that opens like an operand is neither a group nor a keyword. */
  lemma OnlyComparison(h: SidText, s: string)
    requires s != "" && Lower(s[0]) !in {'n', 'd', 'm', 'e'}
    ensures ParseTest(h, s) == ParseComparison(h, s)
  {
    hide ParseComparison;
    NoMember(s, MEMBER_OPS);
    assert Lower("Exists"[0]) == 'e' && Lower("Not_Exists"[0]) == 'n';
  }

  lemma CompareRoundTrip(h: SidText, op: CompareOp, l: Operand, r: Operand, rest: string)
    requires Printable(h, l) && Printable(h, r) && CondEnd(rest)
    ensures var p := PrintOperand(h, l);
      && p != "" && !Space(p[0]) && p[0] != '(' && p[0] != '!'
      && ParseTest(h, p + " " + CompareText(op) + " " + PrintOperand(h, r) + rest) == Got(Compare(op, l, r), rest)
  {
    hide ReadOperand, PrintOperand, Printable, CompareText, ReadCompareOp, ParseTest;
    OperandFirst(h, l);
    var p, y := PrintOperand(h, l), PrintOperand(h, r) + rest;
    var x := CompareText(op) + " " + y;
    var s := p + (" " + x);
    assert p + " " + CompareText(op) + " " + PrintOperand(h, r) + rest == s;
    assert s[0] == p[0];
    OnlyComparison(h, s);
    OperandRoundTrip(h, l, " " + x);
    CompareOpHead(op);
    assert (" " + x)[1..] == x && x[0] == CompareText(op)[0];
    NoSkip(x);
    CompareOpFound(op, y);
    OperandAfterSpace(h, r, rest);
  }

  lemma CompareOpHead(op: CompareOp)
    ensures CompareText(op) != "" && !Space(CompareText(op)[0])
  {
  }

  lemma OperandFirst(h: SidText, o: Operand)
    requires Printable(h, o)
    ensures var t := PrintOperand(h, o);
      && t != "" && !Space(t[0]) && t[0] != '(' && t[0] != '!' && t[0] != ')'
      && Lower(t[0]) !in {'n', 'd', 'm', 'e'}
  {
    OperandHead(h, o);
  }

  /** How many constructors of this kind stand between a lemma and the next smaller condition. */
  function Rank(c: Cond, forOr: nat, forAnd: nat, other: nat): nat {
    if c.Or? then forOr else if c.And? then forAnd else other
  }

  // One step of each function of the grammar.

  lemma UnaryNot(h: SidText, t: string, c: Cond, rest: string)
    requires t != "" && !Space(t[0]) && ParseUnary(h, t) == Got(c, rest)
    ensures ParseUnary(h, "!" + t) == Got(Not(c), rest)
  {
    hide ParsePrimary;
    NoSkip("!" + t);
    NoSkip(t);
    assert ("!" + t)[1..] == t;
  }

  lemma UnaryGroup(h: SidText, t: string, c: Cond, rest: string)
    requires ParseExpr(h, t) == Got(c, ")" + rest)
    ensures ParseUnary(h, "(" + t) == Got(c, rest)
  {
    hide ParseExpr, ParseTest;
    NoSkip("(" + t);
    assert ("(" + t)[1..] == t;
    NoSkip(")" + rest);
    assert (")" + rest)[1..] == rest;
  }

  lemma UnaryTest(h: SidText, s: string)
    requires s != "" && !Space(s[0]) && s[0] != '(' && s[0] != '!'
    ensures ParseUnary(h, s) == ParseTest(h, s)
  {
    hide ParseTest;
    NoSkip(s);
  }

  /** A binary operator is printed between spaces, and the operand after it starts at once. */
  lemma OperatorSkipped(s: string, op: string, t: string)
    requires |op| == 2 && !Space(op[0]) && t != "" && !Space(t[0]) && s == " " + op + " " + t
    ensures var u := SkipWs(s); Starts(u, op) && u[0] == op[0] && SkipWs(u[2..]) == t
  {
    assert s[1..] == op + " " + t;
    NoSkip(op + " " + t);
    assert (op + " " + t)[2..] == " " + t && (" " + t)[1..] == t;
    NoSkip(t);
  }

  lemma AndStep(h: SidText, lhs: Cond, t: string, rhs: Cond, rest: string)
    requires t != "" && !Space(t[0]) && ParseUnary(h, t) == Got(rhs, rest)
    ensures AndLoop(h, lhs, " && " + t) == AndLoop(h, And(lhs, rhs), rest)
  {
    hide ParseUnary;
    assert " && " + t == " " + "&&" + " " + t;
    OperatorSkipped(" && " + t, "&&", t);
  }

  lemma OrStep(h: SidText, lhs: Cond, t: string, rhs: Cond, rest: string)
    requires t != "" && !Space(t[0]) && ParseAnd(h, t) == Got(rhs, rest)
    ensures OrLoop(h, lhs, " || " + t) == OrLoop(h, Or(lhs, rhs), rest)
  {
    hide ParseAnd;
    assert " || " + t == " " + "||" + " " + t;
    OperatorSkipped(" || " + t, "||", t);
  }

  lemma OrLoopSkips(h: SidText, lhs: Cond, s: string)
    ensures OrLoop(h, lhs, SkipWs(s)) == OrLoop(h, lhs, s)
  {
    hide ParseAnd;
    NoSkip(SkipWs(s));
  }

  lemma OrLoopStops(h: SidText, lhs: Cond, rest: string)
    ensures OrLoop(h, lhs, "") == Got(lhs, "")
    ensures OrLoop(h, lhs, ")" + rest) == Got(lhs, ")" + rest)
  {
    hide ParseAnd;
    NoSkip(")" + rest);
  }

  // Whole printed conditions.

  lemma {:induction false} UnaryRoundTrip(h: SidText, c: Cond, rest: string)
    requires PrintableCond(h, c) && CondEnd(rest)
    ensures ParseUnary(h, Print(h, c, 3) + rest) == Got(Norm(c), rest)
    decreases c, Rank(c, 1, 3, 0)
  {
    hide ParseTest, ParseUnary, ParseExpr, OrLoop, Print;
    if c.Not? {
      var t := Print(h, c.c, 3) + rest;
      PrintedNot(h, c.c, rest);
      UnaryRoundTrip(h, c.c, rest);
      CondFirst(h, c.c, 3);
      UnaryNot(h, t, Norm(c.c), rest);
    } else if c.And? || c.Or? {
      var t := Print(h, c, 1) + (")" + rest);
      PrintedGroup(h, c);
      assert Print(h, c, 3) + rest == "(" + t;
      NoSkip(")" + rest);
      ExprRoundTrip(h, c, ")" + rest);
      OrLoopStops(h, Norm(c), rest);
      UnaryGroup(h, t, Norm(c), rest);
    } else {
      TestRoundTrip(h, c, rest);
      UnaryTest(h, Print(h, c, 3) + rest);
    }
  }

  lemma PrintedNot(h: SidText, c: Cond, rest: string)
    ensures Print(h, Not(c), 3) + rest == "!" + (Print(h, c, 3) + rest)
  {
  }

  lemma PrintedGroup(h: SidText, c: Cond)
    requires c.And? || c.Or?
    ensures Print(h, c, 3) == "(" + Print(h, c, 1) + ")"
  {
  }

  lemma PrintedAnd(h: SidText, a: Cond, b: Cond, rest: string)
    ensures Print(h, And(a, b), 2) + rest == Print(h, a, 2) + (" && " + (Print(h, b, 2) + rest))
  {
  }

  lemma {:induction false} AndRoundTrip(h: SidText, c: Cond, rest: string)
    requires PrintableCond(h, c) && CondEnd(rest)
    ensures ParseAnd(h, Print(h, c, 2) + rest) == AndLoop(h, Norm(c), rest)
    decreases c, Rank(c, 2, 0, 1)
  {
    hide ParseUnary, AndLoop, Print;
    if c.And? {
      PrintedAnd(h, c.a, c.b, rest);
      AndRoundTrip(h, c.a, " && " + (Print(h, c.b, 2) + rest));
      AndTail(h, Norm(c.a), c.b, rest);
    } else {
      UnaryRoundTrip(h, c, rest);
      SamePrint(h, c);
    }
  }

  lemma {:induction false} AndTail(h: SidText, lhs: Cond, c: Cond, rest: string)
    requires PrintableCond(h, c) && CondEnd(rest)
    ensures AndLoop(h, lhs, " && " + (Print(h, c, 2) + rest)) == AndLoop(h, FoldAnd(lhs, c), rest)
    decreases c, Rank(c, 2, 0, 1)
  {
    hide ParseUnary, AndLoop, Print;
    if c.And? {
      PrintedAnd(h, c.a, c.b, rest);
      AndTail(h, lhs, c.a, " && " + (Print(h, c.b, 2) + rest));
      AndTail(h, FoldAnd(lhs, c.a), c.b, rest);
    } else {
      UnaryRoundTrip(h, c, rest);
      SamePrint(h, c);
      CondFirst(h, c, 2);
      AndStep(h, lhs, Print(h, c, 2) + rest, Norm(c), rest);
    }
  }

  lemma SamePrint(h: SidText, c: Cond)
    ensures !c.And? ==> Print(h, c, 2) == Print(h, c, 3)
    ensures !c.Or? ==> Print(h, c, 1) == Print(h, c, 2)
    ensures Print(h, c, 0) == Print(h, c, 1)
  {
  }

  /** Nothing after it can extend an `&&` chain. */
  predicate OrEnd(rest: string) {
    CondEnd(rest) && !Starts(SkipWs(rest), "&&")
  }

  lemma OrEnds(h: SidText, c: Cond, rest: string)
    requires PrintableCond(h, c)
    ensures OrEnd(" || " + (Print(h, c, 1) + rest))
  {
    hide Print;
    CondFirst(h, c, 1);
    var t := Print(h, c, 1) + rest;
    assert " || " + t == " " + "||" + " " + t;
    OperatorSkipped(" || " + t, "||", t);
  }

  lemma PrintedOr(h: SidText, a: Cond, b: Cond, rest: string)
    ensures Print(h, Or(a, b), 1) + rest == Print(h, a, 1) + (" || " + (Print(h, b, 1) + rest))
  {
  }

  lemma {:induction false} ExprRoundTrip(h: SidText, c: Cond, rest: string)
    requires PrintableCond(h, c) && OrEnd(rest)
    ensures ParseExpr(h, Print(h, c, 1) + rest) == OrLoop(h, Norm(c), rest)
    decreases c, Rank(c, 0, 2, 3)
  {
    hide ParseAnd, OrLoop, OrEnd, Print;
    if c.Or? {
      PrintedOr(h, c.a, c.b, rest);
      OrEnds(h, c.b, rest);
      ExprRoundTrip(h, c.a, " || " + (Print(h, c.b, 1) + rest));
      OrTail(h, Norm(c.a), c.b, rest);
    } else {
      AndChain(h, c, rest);
      OrLoopSkips(h, Norm(c), rest);
    }
  }

  lemma {:induction false} AndChain(h: SidText, c: Cond, rest: string)
    requires PrintableCond(h, c) && OrEnd(rest) && !c.Or?
    ensures ParseAnd(h, Print(h, c, 1) + rest) == Got(Norm(c), SkipWs(rest))
    decreases c, Rank(c, 0, 1, 2)
  {
    hide ParseAnd, ParseUnary, Print;
    SamePrint(h, c);
    AndRoundTrip(h, c, rest);
  }

  lemma {:induction false} OrTail(h: SidText, lhs: Cond, c: Cond, rest: string)
    requires PrintableCond(h, c) && OrEnd(rest)
    ensures OrLoop(h, lhs, " || " + (Print(h, c, 1) + rest)) == OrLoop(h, FoldOr(lhs, c), rest)
    decreases c, Rank(c, 0, 2, 3)
  {
    hide ParseAnd, OrLoop, OrEnd, Print;
    if c.Or? {
      PrintedOr(h, c.a, c.b, rest);
      OrEnds(h, c.b, rest);
      OrTail(h, lhs, c.a, " || " + (Print(h, c.b, 1) + rest));
      OrTail(h, FoldOr(lhs, c.a), c.b, rest);
    } else {
      AndChain(h, c, rest);
      CondFirst(h, c, 1);
      OrStep(h, lhs, Print(h, c, 1) + rest, Norm(c), SkipWs(rest));
      OrLoopSkips(h, Or(lhs, Norm(c)), rest);
    }
  }

  lemma {:induction false} CondFirst(h: SidText, c: Cond, prec: nat)
    requires PrintableCond(h, c)
    ensures Print(h, c, prec) != "" && !WhiteSpace(Print(h, c, prec)[0]) && !Space(Print(h, c, prec)[0])
  {
    match c
    case And(a, b) => CondFirst(h, a, 2);
    case Or(a, b) => CondFirst(h, a, 1);
    case Compare(_, l, _) => OperandFirst(h, l); OperandHead(h, l);
    case Member(op, _) => MemberHead(op);
    case _ =>
  }
}
