/** Exactly which conditions the text syntax carries: those whose every operand it can express. */
module CondExact {
  import opened Bytes
  import opened SidWire
  import opened Condition
  import opened CondText
  import opened CondParse
  import opened CondMeaning
  import opened CondRoundTrip

  // ---- what an operand must be ----

  predicate LegalName(name: string) {
    name != "" && forall i :: 0 <= i < |name| ==> IdentChar(name[i])
  }

  /** An operand the syntax has text for, whatever its SIDs. */
  predicate Expressible(o: Operand) {
    match o
    case Int(n) => I64_MIN < n <= I64_MAX
    case Str(t) => '"' !in t
    case SidLit(_) => true
    case Octet(data) => data != []
    case Composite(items) => AllExpressible(items)
    case Attr(_, name) => LegalName(name)
  }

  predicate AllExpressible(items: seq<Operand>) {
    items == [] || (Expressible(items[0]) && AllExpressible(items[1..]))
  }

  predicate ExpressibleCond(c: Cond) {
    match c
    case Compare(_, l, r) => Expressible(l) && Expressible(r)
    case Member(_, o) => Expressible(o)
    case Exists(o) => Expressible(o)
    case NotExists(o) => Expressible(o)
    case Not(d) => ExpressibleCond(d)
    case And(a, b) => ExpressibleCond(a) && ExpressibleCond(b)
    case Or(a, b) => ExpressibleCond(a) && ExpressibleCond(b)
  }

  /** The SID vocabulary reads back every SID in the operand. */
  predicate Shown(h: SidText, o: Operand) {
    match o
    case SidLit(sid) => SidShown(h, sid)
    case Composite(items) => AllShown(h, items)
    case _ => true
  }

  predicate AllShown(h: SidText, items: seq<Operand>) {
    items == [] || (Shown(h, items[0]) && AllShown(h, items[1..]))
  }

  predicate ShownCond(h: SidText, c: Cond) {
    match c
    case Compare(_, l, r) => Shown(h, l) && Shown(h, r)
    case Member(_, o) => Shown(h, o)
    case Exists(o) => Shown(h, o)
    case NotExists(o) => Shown(h, o)
    case Not(d) => ShownCond(h, d)
    case And(a, b) => ShownCond(h, a) && ShownCond(h, b)
    case Or(a, b) => ShownCond(h, a) && ShownCond(h, b)
  }

  lemma {:induction false} PrintableIs(h: SidText, o: Operand)
    ensures Printable(h, o) <==> Expressible(o) && Shown(h, o)
    decreases o, 0
  {
    if o.Composite? {
      AllPrintableIs(h, o.items);
    }
  }

  lemma {:induction false} AllPrintableIs(h: SidText, items: seq<Operand>)
    ensures AllPrintable(h, items) <==> AllExpressible(items) && AllShown(h, items)
    decreases items, 1
  {
    hide Printable, Expressible, Shown;
    if items != [] {
      PrintableIs(h, items[0]);
      AllPrintableIs(h, items[1..]);
    }
  }

  lemma {:induction false} PrintableCondIs(h: SidText, c: Cond)
    ensures PrintableCond(h, c) <==> ExpressibleCond(c) && ShownCond(h, c)
  {
    hide Printable, Expressible, Shown;
    match c
    case Compare(_, l, r) => PrintableIs(h, l); PrintableIs(h, r);
    case Member(_, o) => PrintableIs(h, o);
    case Exists(o) => PrintableIs(h, o);
    case NotExists(o) => PrintableIs(h, o);
    case Not(d) => PrintableCondIs(h, d);
    case And(a, b) => PrintableCondIs(h, a); PrintableCondIs(h, b);
    case Or(a, b) => PrintableCondIs(h, a); PrintableCondIs(h, b);
  }

  // ---- the parser returns nothing else ----

  lemma StringsExpressible(s: string)
    requires s != "" && ReadString(s).Got?
    ensures Expressible(Str(ReadString(s).v))
  {
    var n := Span(s[1..], NotQuote);
    var t := s[1..1 + n];
    assert forall i :: 0 <= i < |t| ==> t[i] == s[1..][i] && NotQuote(s[1..][i]);
  }

  lemma OctetsExpressible(s: string)
    requires s != "" && ReadOctet(s).Got?
    ensures Expressible(Octet(ReadOctet(s).v))
  {
    var n := Span(s[1..], HexDigit);
    assert FromHex(s[1..1 + n]) != [];
  }

  lemma IntsExpressible(s: string)
    requires s != "" && ReadInt(s).Got?
    ensures Expressible(Int(ReadInt(s).v))
  {
    hide ReadMagnitude;
  }

  lemma AttrsExpressible(s: string)
    requires s != "" && ReadAttr(s).Got?
    ensures Expressible(ReadAttr(s).v)
  {
    hide ScopeOf, ScopeName;
  }

  lemma SidsExpressible(h: SidText, s: string)
    requires ReadSid(h, s).Got?
    ensures Expressible(ReadSid(h, s).v)
  {
  }

  lemma {:induction false} OperandsExpressible(h: SidText, s0: string)
    requires ReadOperand(h, s0).Got?
    ensures Expressible(ReadOperand(h, s0).v)
    decreases |s0|, 0
  {
    hide ReadString, ReadOctet, ReadInt, ReadAttr, ReadSid, ReadItems, AllExpressible, LegalName;
    var s := SkipWs(s0);
    if s[0] == '"' {
      StringsExpressible(s);
    } else if s[0] == '#' {
      OctetsExpressible(s);
    } else if s[0] == '{' {
      ItemsExpressible(h, s[1..]);
    } else if s[0] == '-' || Digit(s[0]) {
      IntsExpressible(s);
    } else if s[0] == '@' {
      AttrsExpressible(s);
    } else {
      SidsExpressible(h, s);
    }
  }

  lemma {:induction false} ItemsExpressible(h: SidText, s0: string)
    requires ReadItems(h, s0).Got?
    ensures AllExpressible(ReadItems(h, s0).v)
    decreases |s0|, 1
  {
    hide ReadOperand, Expressible;
    var s := SkipWs(s0);
    if !Starts(s, "}") {
      OperandsExpressible(h, s);
      var got := ReadOperand(h, s);
      var t := SkipWs(got.rest);
      if Starts(t, ",") {
        ItemsExpressible(h, t[1..]);
      }
    }
  }

  lemma TestsExpressible(h: SidText, t: string)
    requires ParseTest(h, t).Got?
    ensures ExpressibleCond(ParseTest(h, t).v)
  {
    hide ReadOperand, Expressible, FirstMember, ReadCompareOp, MemberText;
    if Keyword(t, "Exists") {
      OperandsExpressible(h, t[6..]);
    } else if Keyword(t, "Not_Exists") {
      OperandsExpressible(h, t[10..]);
    } else {
      match FirstMember(t, MEMBER_OPS)
      case Some(op) => OperandsExpressible(h, t[|MemberText(op)|..]);
      case None =>
        OperandsExpressible(h, t);
        var op := ReadCompareOp(SkipWs(ReadOperand(h, t).rest));
        OperandsExpressible(h, op.rest);
    }
  }

  lemma {:induction false} ExprsExpressible(h: SidText, s: string)
    requires ParseExpr(h, s).Got?
    ensures ExpressibleCond(ParseExpr(h, s).v)
    decreases |s|, 4
  {
    hide ParseAnd, OrLoop, ExpressibleCond;
    AndsExpressible(h, s);
    var got := ParseAnd(h, s);
    OrLoopExpressible(h, got.v, got.rest);
  }

  lemma {:induction false} OrLoopExpressible(h: SidText, lhs: Cond, s: string)
    requires ExpressibleCond(lhs) && OrLoop(h, lhs, s).Got?
    ensures ExpressibleCond(OrLoop(h, lhs, s).v)
    decreases |s|, 5
  {
    hide ParseAnd;
    var t := SkipWs(s);
    if Starts(t, "||") {
      AndsExpressible(h, SkipWs(t[2..]));
      var got := ParseAnd(h, SkipWs(t[2..]));
      OrLoopExpressible(h, Or(lhs, got.v), got.rest);
    }
  }

  lemma {:induction false} AndsExpressible(h: SidText, s: string)
    requires ParseAnd(h, s).Got?
    ensures ExpressibleCond(ParseAnd(h, s).v)
    decreases |s|, 3
  {
    hide ParseUnary, AndLoop, ExpressibleCond;
    UnariesExpressible(h, s);
    var got := ParseUnary(h, s);
    AndLoopExpressible(h, got.v, got.rest);
  }

  lemma {:induction false} AndLoopExpressible(h: SidText, lhs: Cond, s: string)
    requires ExpressibleCond(lhs) && AndLoop(h, lhs, s).Got?
    ensures ExpressibleCond(AndLoop(h, lhs, s).v)
    decreases |s|, 5
  {
    hide ParseUnary;
    var t := SkipWs(s);
    if Starts(t, "&&") {
      UnariesExpressible(h, SkipWs(t[2..]));
      var got := ParseUnary(h, SkipWs(t[2..]));
      AndLoopExpressible(h, And(lhs, got.v), got.rest);
    }
  }

  lemma {:induction false} UnariesExpressible(h: SidText, s: string)
    requires ParseUnary(h, s).Got?
    ensures ExpressibleCond(ParseUnary(h, s).v)
    decreases |s|, 2
  {
    hide ParsePrimary;
    var t := SkipWs(s);
    if Starts(t, "!") {
      UnariesExpressible(h, SkipWs(t[1..]));
    } else {
      PrimariesExpressible(h, t);
    }
  }

  lemma {:induction false} PrimariesExpressible(h: SidText, s: string)
    requires ParsePrimary(h, s).Got?
    ensures ExpressibleCond(ParsePrimary(h, s).v)
    decreases |s|, 1
  {
    hide ParseExpr, ParseTest, ExpressibleCond;
    var t := SkipWs(s);
    if Starts(t, "(") {
      ExprsExpressible(h, t[1..]);
    } else {
      TestsExpressible(h, t);
    }
  }

  /** Whatever the text, a condition that comes out of it holds only operands the syntax expresses. */
  lemma ParsedIsExpressible(h: SidText, text: string)
    requires ParseText(h, text).Some?
    ensures ExpressibleCond(ParseText(h, text).value)
  {
    hide ParseExpr, StripOuter, Trim, ExpressibleCond;
    ExprsExpressible(h, StripOuter(Trim(text)));
  }

  // ---- left-nesting moves no operand ----

  lemma {:induction false} NormExpressible(c: Cond)
    ensures ExpressibleCond(Norm(c)) <==> ExpressibleCond(c)
    decreases c, 0
  {
    match c
    case And(a, b) =>
      NormExpressible(a);
      FoldAndExpressible(Norm(a), b);
    case Or(a, b) =>
      NormExpressible(a);
      FoldOrExpressible(Norm(a), b);
    case Not(d) => NormExpressible(d);
    case _ =>
  }

  lemma {:induction false} FoldAndExpressible(lhs: Cond, c: Cond)
    ensures ExpressibleCond(FoldAnd(lhs, c)) <==> ExpressibleCond(lhs) && ExpressibleCond(c)
    decreases c, 1
  {
    if c.And? {
      FoldAndExpressible(lhs, c.a);
      FoldAndExpressible(FoldAnd(lhs, c.a), c.b);
    } else {
      NormExpressible(c);
    }
  }

  lemma {:induction false} FoldOrExpressible(lhs: Cond, c: Cond)
    ensures ExpressibleCond(FoldOr(lhs, c)) <==> ExpressibleCond(lhs) && ExpressibleCond(c)
    decreases c, 1
  {
    if c.Or? {
      FoldOrExpressible(lhs, c.a);
      FoldOrExpressible(FoldOr(lhs, c.a), c.b);
    } else {
      NormExpressible(c);
    }
  }

  // ---- the round trips, exactly ----

  /** No text at all reads as the left-nested form of a condition that is not printable. */
  lemma OnlyPrintable(h: SidText, c: Cond, text: string)
    requires ShownCond(h, c) && ParseText(h, text) == Some(Norm(c))
    ensures PrintableCond(h, c)
  {
    hide ParseText, Norm, ExpressibleCond, ShownCond, PrintableCond;
    ParsedIsExpressible(h, text);
    NormExpressible(c);
    PrintableCondIs(h, c);
  }

  /** In the parentheses an ACE puts around it, a printed condition reads back exactly when it is printable. */
  lemma WrappedRoundTrip(h: SidText, c: Cond)
    requires ShownCond(h, c)
    ensures ParseText(h, "(" + Print(h, c, 0) + ")") == Some(Norm(c)) <==> PrintableCond(h, c)
  {
    hide ParseText, Print, Norm, PrintableCond, ShownCond;
    var text := "(" + Print(h, c, 0) + ")";
    if PrintableCond(h, c) {
      WrappedReads(h, c);
    } else if ParseText(h, text) == Some(Norm(c)) {
      OnlyPrintable(h, c, text);
    }
  }

  /** Bare, exactly when it is printable and the outer-parenthesis stripper leaves it alone. */
  lemma BareRoundTrip(h: SidText, c: Cond)
    requires ShownCond(h, c)
    ensures ParseText(h, Print(h, c, 0)) == Some(Norm(c)) <==> PrintableCond(h, c) && !Strips(Print(h, c, 0))
  {
    hide ParseText, Print, Norm, PrintableCond, ShownCond, Strips;
    if PrintableCond(h, c) {
      BareReads(h, c);
    } else if ParseText(h, Print(h, c, 0)) == Some(Norm(c)) {
      OnlyPrintable(h, c, Print(h, c, 0));
    }
  }

  /**
   * What an ACE's text gives back: the very same condition exactly when it is printable and
   * left-nested, and for every printable one a left-nested condition of the same value everywhere.
   */
  lemma TextKeepsMeaning(h: SidText, c: Cond)
    requires ShownCond(h, c)
    ensures ParseText(h, "(" + Print(h, c, 0) + ")") == Some(c) <==> PrintableCond(h, c) && LeftNested(c)
    ensures PrintableCond(h, c) ==>
      && ParseText(h, "(" + Print(h, c, 0) + ")").Some?
      && var d := ParseText(h, "(" + Print(h, c, 0) + ")").value;
      LeftNested(d) && forall env: Cond -> Truth :: Eval(env, d) == Eval(env, c)
  {
    hide ParseText, Print, PrintableCond, ShownCond, Eval, Norm, LeftNested, ExpressibleCond;
    var text := "(" + Print(h, c, 0) + ")";
    WrappedRoundTrip(h, c);
    NormNests(c);
    if LeftNested(c) {
      NestedIsNormal(c);
    }
    if ParseText(h, text) == Some(c) {
      ParsedIsExpressible(h, text);
      PrintableCondIs(h, c);
    }
    forall env: Cond -> Truth ensures Eval(env, Norm(c)) == Eval(env, c) {
      NormKeepsMeaning(env, c);
    }
  }

  /** The least `i64` in a condition: printed, wrapped or not, it never comes back. */
  lemma LeastIntNeverReads(h: SidText, op: CompareOp, r: Operand, text: string)
    ensures ParseText(h, text) != Some(Compare(op, Int(I64_MIN), r))
  {
    hide ParseText;
    if ParseText(h, text).Some? {
      ParsedIsExpressible(h, text);
    }
  }
}
