/** Printing a condition and parsing it again: the same truth value in every environment. */
module CondRoundTrip {
  import opened Bytes
  import opened SidWire
  import opened Condition
  import opened CondText
  import opened CondParse
  import opened CondMeaning

  // ---- the ends of printed text ----

  predicate Inked(s: string) {
    s != "" && !WhiteSpace(s[|s| - 1])
  }

  lemma InkedAppend(a: string, b: string)
    requires Inked(b)
    ensures Inked(a + b)
  {
  }

  lemma DecimalInked(n: nat)
    ensures Inked(Decimal(n))
  {
  }

  lemma OperandInked(h: SidText, o: Operand)
    requires Printable(h, o)
    ensures Inked(PrintOperand(h, o))
  {
    match o
    case Int(n) => DecimalInked(if n < 0 then -n else n);
    case Octet(data) => HexRoundTrip(data);
    case _ =>
  }

  lemma ParenInked(wrap: bool, a: string, b: string)
    requires Inked(b)
    ensures Inked(Paren(wrap, a + b))
  {
  }

  lemma {:induction false} CondInked(h: SidText, c: Cond, prec: nat)
    requires PrintableCond(h, c)
    ensures Inked(Print(h, c, prec))
  {
    hide PrintOperand, Printable, Inked, CompareText, MemberText, Paren;
    match c
    case And(a, b) =>
      CondInked(h, b, 2);
      ParenInked(prec > 2, Print(h, a, 2) + " && ", Print(h, b, 2));
    case Or(a, b) =>
      CondInked(h, b, 1);
      ParenInked(prec > 1, Print(h, a, 1) + " || ", Print(h, b, 1));
    case Not(d) =>
      CondInked(h, d, 3);
      InkedAppend("!", Print(h, d, 3));
    case Compare(op, l, r) =>
      OperandInked(h, r);
      InkedAppend(PrintOperand(h, l) + " " + CompareText(op) + " ", PrintOperand(h, r));
    case Member(op, o) =>
      OperandInked(h, o);
      InkedAppend(MemberText(op) + " ", PrintOperand(h, o));
    case Exists(o) =>
      OperandInked(h, o);
      InkedAppend("Exists ", PrintOperand(h, o));
    case NotExists(o) =>
      OperandInked(h, o);
      InkedAppend("Not_Exists ", PrintOperand(h, o));
  }

  lemma TrimKeeps(h: SidText, c: Cond)
    requires PrintableCond(h, c)
    ensures Trim(Print(h, c, 0)) == Print(h, c, 0)
  {
    hide Print;
    CondFirst(h, c, 0);
    CondInked(h, c, 0);
  }

  // ---- a leading group ----

  lemma OnlyChainsOpen(h: SidText, c: Cond, prec: nat)
    requires PrintableCond(h, c)
    ensures Opens(Print(h, c, prec)) ==> c.And? || c.Or?
  {
    hide PrintOperand, Printable;
    if !c.And? && !c.Or? && !c.Not? {
      TestRoundTrip(h, c, "");
      assert Print(h, c, 3) + "" == Print(h, c, prec);
    }
  }

  predicate Opens(s: string) {
    s != "" && s[0] == '('
  }

  /** The precedence of a chain, and how its operator is printed. */
  function Mine(c: Cond): nat {
    if c.And? then 2 else 1
  }

  function Operator(c: Cond): string {
    if c.And? then " && " else " || "
  }

  lemma PrintedChain(h: SidText, c: Cond, prec: nat)
    requires c.And? || c.Or?
    ensures Print(h, c, prec) ==
      if prec > Mine(c) then "(" + Print(h, c, 1) + ")" else Print(h, c.a, Mine(c)) + (Operator(c) + Print(h, c.b, Mine(c)))
  {
  }

  /** Printed text opens with a parenthesis only around an inner disjunction or conjunction. */
  lemma {:induction false} LeadingGroup(h: SidText, c: Cond, prec: nat) returns (g: Cond, more: string)
    requires PrintableCond(h, c) && Opens(Print(h, c, prec)) && (c.And? || c.Or?)
    ensures PrintableCond(h, g) && Print(h, c, prec) == "(" + Print(h, g, 1) + ")" + more
    ensures prec == 0 ==> more != ""
    ensures PlainCond(h, c) ==> PlainCond(h, g)
  {
    hide Print, Printable, Plain;
    PrintedChain(h, c, prec);
    if prec > Mine(c) {
      g, more := c, "";
    } else {
      var mine := Mine(c);
      var tail := Operator(c) + Print(h, c.b, mine);
      CondFirst(h, c.a, mine);
      OnlyChainsOpen(h, c.a, mine);
      var m;
      g, m := LeadingGroup(h, c.a, mine);
      more := m + tail;
      var group := "(" + Print(h, g, 1) + ")";
      assert group + m + tail == group + (m + tail);
    }
  }

  // ---- parsing printed text ----

  lemma ExprToEnd(h: SidText, c: Cond)
    requires PrintableCond(h, c)
    ensures ParseExpr(h, Print(h, c, 0)) == Got(Norm(c), "")
  {
    hide ParseExpr, OrLoop, Print;
    SamePrint(h, c);
    assert Print(h, c, 1) + "" == Print(h, c, 1);
    ExprRoundTrip(h, c, "");
    OrLoopStops(h, Norm(c), "");
  }

  lemma ExprToParen(h: SidText, c: Cond, rest: string)
    requires PrintableCond(h, c)
    ensures ParseExpr(h, Print(h, c, 1) + (")" + rest)) == Got(Norm(c), ")" + rest)
  {
    hide ParseExpr, OrLoop, Print;
    NoSkip(")" + rest);
    ExprRoundTrip(h, c, ")" + rest);
    OrLoopStops(h, Norm(c), rest);
  }

  /**
   * Bare printed text parses to the left-nested condition, unless the outer-parenthesis stripper
   * fires on it; then it does not parse at all.
   */
  lemma BareReads(h: SidText, c: Cond)
    requires PrintableCond(h, c)
    ensures ParseText(h, Print(h, c, 0)) == if Strips(Print(h, c, 0)) then None else Some(Norm(c))
  {
    hide ParseExpr, Print, ClosesEarly, Trim, Norm, SkipWs, PlainCond, PrintableCond;
    var p := Print(h, c, 0);
    TrimKeeps(h, c);
    NoSkip("");
    if Strips(p) {
      OnlyChainsOpen(h, c, 0);
      var g, more := LeadingGroup(h, c, 0);
      var tail := more[..|more| - 1];
      assert p[1..|p| - 1] == Print(h, g, 1) + (")" + tail);
      ExprToParen(h, g, tail);
      NoSkip(")" + tail);
    } else {
      ExprToEnd(h, c);
    }
  }

  lemma WrappedExpr(h: SidText, c: Cond)
    requires PrintableCond(h, c)
    ensures ParseExpr(h, "(" + Print(h, c, 0) + ")") == Got(Norm(c), "")
  {
    hide ParseUnary, Print;
    SamePrint(h, c);
    var t := Print(h, c, 1) + (")" + "");
    ExprToParen(h, c, "");
    UnaryGroup(h, t, Norm(c), "");
    assert "(" + Print(h, c, 0) + ")" == "(" + t;
    assert AndLoop(h, Norm(c), "") == Got(Norm(c), "");
    OrLoopStops(h, Norm(c), "");
  }

  /** In the parentheses an ACE puts around it, every printable condition reads back. */
  lemma WrappedReads(h: SidText, c: Cond)
    requires PrintableCond(h, c)
    ensures ParseText(h, "(" + Print(h, c, 0) + ")") == Some(Norm(c))
  {
    hide ParseExpr, Print, ClosesEarly;
    var s := "(" + Print(h, c, 0) + ")";
    assert Trim(s) == s;
    assert s[1..|s| - 1] == Print(h, c, 0);
    WrappedExpr(h, c);
    ExprToEnd(h, c);
  }

  // ---- when the stripper leaves printed text alone ----

  predicate NoParens(s: string) {
    '(' !in s && ')' !in s
  }

  /** No literal holds a parenthesis. */
  predicate Plain(h: SidText, o: Operand) {
    match o
    case Str(t) => NoParens(t)
    case SidLit(sid) => NoParens(h.show(sid))
    case Composite(items) => AllPlain(h, items)
    case _ => true
  }

  predicate AllPlain(h: SidText, items: seq<Operand>) {
    items == [] || (Plain(h, items[0]) && AllPlain(h, items[1..]))
  }

  predicate PlainCond(h: SidText, c: Cond) {
    match c
    case Compare(_, l, r) => Plain(h, l) && Plain(h, r)
    case Member(_, o) => Plain(h, o)
    case Exists(o) => Plain(h, o)
    case NotExists(o) => Plain(h, o)
    case Not(d) => PlainCond(h, d)
    case And(a, b) => PlainCond(h, a) && PlainCond(h, b)
    case Or(a, b) => PlainCond(h, a) && PlainCond(h, b)
  }

  function Balance(s: string): int {
    if s == "" then 0 else Balance(s[1..]) + (if s[0] == '(' then 1 else if s[0] == ')' then -1 else 0)
  }

  lemma {:induction false} BalanceAppend(a: string, b: string)
    ensures Balance(a + b) == Balance(a) + Balance(b)
  {
    if a == "" {
      assert a + b == b;
    } else {
      assert (a + b)[1..] == a[1..] + b;
      BalanceAppend(a[1..], b);
    }
  }

  lemma {:induction false} BalanceNone(s: string)
    requires NoParens(s)
    ensures Balance(s) == 0
  {
    if s != "" {
      assert forall c :: c in s[1..] ==> c in s;
      BalanceNone(s[1..]);
    }
  }

  lemma {:induction false} OperandBalanced(h: SidText, o: Operand)
    requires Printable(h, o) && Plain(h, o)
    ensures Balance(PrintOperand(h, o)) == 0
    decreases o, 0
  {
    hide Balance, Decimal, PrintHex, ScopeName;
    match o
    case Int(n) => BalanceNone(PrintInt(n));
    case Str(t) => BalanceNone("\"" + t + "\"");
    case SidLit(sid) =>
      BalanceAppend("SID(" + h.show(sid), ")");
      BalanceAppend("SID(", h.show(sid));
      BalanceNone(h.show(sid));
      BalanceOfSid();
    case Octet(data) =>
      HexRoundTrip(data);
      BalanceNone("#" + PrintHex(data));
    case Composite(items) =>
      ItemsBalanced(h, items);
      BalanceAppend("{" + PrintItems(h, items), "}");
      BalanceAppend("{", PrintItems(h, items));
      BalanceNone("{");
      BalanceNone("}");
    case Attr(scope, name) =>
      ScopeNoParens(scope);
      BalanceNone("@" + ScopeName(scope) + "." + name);
  }

  lemma BalanceOfSid()
    ensures Balance("SID(") == 1 && Balance("(") == 1 && Balance(")") == -1
  {
    BalanceAppend("SID", "(");
    assert "SID(" == "SID" + "(";
    BalanceNone("SID");
  }

  lemma ScopeNoParens(scope: Scope)
    ensures NoParens(ScopeName(scope))
  {
  }

  lemma {:induction false} ItemsBalanced(h: SidText, items: seq<Operand>)
    requires AllPrintable(h, items) && AllPlain(h, items)
    ensures Balance(PrintItems(h, items)) == 0
    decreases items, 1
  {
    hide PrintOperand;
    if items != [] {
      OperandBalanced(h, items[0]);
      if |items| > 1 {
        ItemsBalanced(h, items[1..]);
        BalanceAppend(PrintOperand(h, items[0]) + ", ", PrintItems(h, items[1..]));
        BalanceAppend(PrintOperand(h, items[0]), ", ");
        BalanceNone(", ");
      }
    }
  }

  lemma JoinBalanced(a: string, op: string, b: string, wrap: bool)
    requires Balance(a) == 0 && NoParens(op) && Balance(b) == 0
    ensures Balance(Paren(wrap, a + op + b)) == 0
  {
    hide Balance;
    BalanceAppend(a + op, b);
    BalanceAppend(a, op);
    BalanceNone(op);
    BalanceAppend("(" + (a + op + b), ")");
    BalanceAppend("(", a + op + b);
    BalanceOfSid();
  }

  lemma CompareNoParens(op: CompareOp)
    ensures NoParens(CompareText(op))
  {
  }

  lemma WordNoParens(w: string)
    requires Word(w)
    ensures NoParens(w)
  {
  }

  lemma NoParensAppend(a: string, b: string)
    requires NoParens(a) && NoParens(b)
    ensures NoParens(a + b)
  {
  }

  lemma WordsNoParens(op: CompareOp, mop: MemberOp)
    ensures NoParens(" " + CompareText(op) + " ") && NoParens(MemberText(mop) + " ")
  {
    hide CompareText, MemberText, NoParens;
    CompareNoParens(op);
    MemberIsWord(mop);
    WordNoParens(MemberText(mop));
    assert NoParens(" ") by { SpacePlain(); }
    NoParensAppend(" ", CompareText(op));
    NoParensAppend(" " + CompareText(op), " ");
    NoParensAppend(MemberText(mop), " ");
  }

  lemma SpacePlain()
    ensures NoParens(" ")
  {
  }

  lemma {:induction false} CondBalanced(h: SidText, c: Cond, prec: nat)
    requires PrintableCond(h, c) && PlainCond(h, c)
    ensures Balance(Print(h, c, prec)) == 0
  {
    hide Balance, PrintOperand, Printable, Plain, CompareText, MemberText;
    match c
    case And(a, b) =>
      CondBalanced(h, a, 2);
      CondBalanced(h, b, 2);
      JoinBalanced(Print(h, a, 2), " && ", Print(h, b, 2), prec > 2);
    case Or(a, b) =>
      CondBalanced(h, a, 1);
      CondBalanced(h, b, 1);
      JoinBalanced(Print(h, a, 1), " || ", Print(h, b, 1), prec > 1);
    case Not(d) =>
      CondBalanced(h, d, 3);
      BalanceAppend("!", Print(h, d, 3));
      BalanceNone("!");
    case Exists(o) => AfterWord(h, "Exists ", o);
    case NotExists(o) => AfterWord(h, "Not_Exists ", o);
    case Member(op, o) =>
      WordsNoParens(Eq, op);
      AfterWord(h, MemberText(op) + " ", o);
    case Compare(op, l, r) =>
      OperandBalanced(h, l);
      OperandBalanced(h, r);
      WordsNoParens(op, MemberOf);
      JoinBalanced(PrintOperand(h, l), " " + CompareText(op) + " ", PrintOperand(h, r), false);
      assert PrintOperand(h, l) + (" " + CompareText(op) + " ") + PrintOperand(h, r) == Print(h, c, prec);
  }

  lemma AfterWord(h: SidText, w: string, o: Operand)
    requires NoParens(w) && Printable(h, o) && Plain(h, o)
    ensures Balance(w + PrintOperand(h, o)) == 0
  {
    OperandBalanced(h, o);
    BalanceAppend(w, PrintOperand(h, o));
    BalanceNone(w);
  }

  /** A closing parenthesis that brings the balance to zero before the end is seen by the scan. */
  lemma {:induction false} EarlyClose(s: string, k: nat, depth: int)
    requires k < |s| - 1 && s[k] == ')' && depth + Balance(s[..k + 1]) == 0
    ensures ClosesEarly(s, depth)
    decreases k
  {
    assert s[..k + 1][1..] == s[1..][..k];
    if k > 0 {
      EarlyClose(s[1..], k - 1, depth + if s[0] == '(' then 1 else if s[0] == ')' then -1 else 0);
    }
  }

  /** Without parentheses in its literals, a bare printed condition always reads back. */
  lemma PlainRoundTrip(h: SidText, c: Cond)
    requires PrintableCond(h, c) && PlainCond(h, c)
    ensures ParseText(h, Print(h, c, 0)) == Some(Norm(c))
  {
    hide Print, ParseText, PlainCond, PrintableCond, ClosesEarly;
    BareReads(h, c);
    var p := Print(h, c, 0);
    if Strips(p) {
      OnlyChainsOpen(h, c, 0);
      var g, more := LeadingGroup(h, c, 0);
      CondBalanced(h, g, 1);
      JoinBalanced(Print(h, g, 1), "", "", true);
      var group := "(" + Print(h, g, 1) + ")";
      assert Print(h, g, 1) + "" + "" == Print(h, g, 1);
      assert p[..|group|] == group;
      EarlyClose(p, |group| - 1, 0);
    }
  }

  lemma {:induction false} ScanOver(a: string, rest: string, depth: int)
    requires NoParens(a)
    ensures ClosesEarly(a + rest, depth) == ClosesEarly(rest, depth)
  {
    if a == "" {
      assert a + rest == rest;
    } else {
      assert a[0] in a && forall c :: c in a[1..] ==> c in a;
      assert (a + rest)[1..] == a[1..] + rest;
      ScanOver(a[1..], rest, depth);
    }
  }

  lemma ScanParen(rest: string, depth: int)
    ensures ClosesEarly("(" + rest, depth) == ClosesEarly(rest, depth + 1)
    ensures ClosesEarly(")" + rest, depth) == ((depth == 1 && rest != "") || ClosesEarly(rest, depth - 1))
  {
    assert ("(" + rest)[1..] == rest && (")" + rest)[1..] == rest;
  }

  /** Two groups, the first holding a literal that opens one parenthesis more. */
  lemma TwoGroupsStrip(a: string, b: string, between: string, last: string)
    requires NoParens(a) && NoParens(b) && NoParens(between) && NoParens(last)
    ensures Strips("(" + (a + ("(" + (b + (")" + (between + ("(" + (last + ")"))))))))
  {
    hide ClosesEarly;
    var s1 := "(" + (last + ")");
    var s2 := ")" + (between + s1);
    var s3 := "(" + (b + s2);
    var s := "(" + (a + s3);
    ScanParen(a + s3, 0);
    ScanOver(a, s3, 1);
    ScanParen(b + s2, 1);
    ScanOver(b, s2, 2);
    ScanParen(between + s1, 2);
    ScanOver(between, s1, 1);
    ScanParen(last + ")", 1);
    ScanOver(last, ")", 2);
    ScanParen("", 2);
    assert ")" + "" == ")";
    NothingToScan(1);
  }

  lemma NothingToScan(depth: int)
    ensures !ClosesEarly("", depth)
  {
  }

  const ZERO := Compare(Eq, Int(0), Int(0))
  const ODD := Compare(Eq, Str("("), Int(0))

  lemma PrintedTests(h: SidText, prec: nat)
    ensures Print(h, ZERO, prec) == "0 == 0" && Print(h, ODD, prec) == "\"(\" == 0"
    ensures PrintableCond(h, ZERO) && PrintableCond(h, ODD)
  {
    assert PrintOperand(h, Int(0)) == "0" && PrintOperand(h, Str("(")) == "\"(\"";
  }

  lemma PrintedGroups(h: SidText, a: Cond, b: Cond)
    ensures Print(h, Or(a, b), 2) == "(" + (Print(h, a, 1) + " || " + Print(h, b, 1)) + ")"
    ensures Print(h, And(a, b), 0) == Print(h, a, 2) + " && " + Print(h, b, 2)
  {
  }

  lemma Regroup(a: string, b: string, between: string, last: string)
    ensures ("(" + (a + "(" + b) + ")") + between + ("(" + last + ")")
      == "(" + (a + ("(" + (b + (")" + (between + ("(" + (last + ")")))))))
  {
  }

  lemma MiscountedText(h: SidText)
    ensures Print(h, ODD, 1) + " || " + Print(h, ZERO, 1) == "\"" + "(" + "\" == 0 || 0 == 0"
    ensures Print(h, ZERO, 1) + " || " + Print(h, ZERO, 1) == "0 == 0 || 0 == 0"
  {
    hide Print, ZERO, ODD;
    PrintedTests(h, 1);
  }

  /** A parenthesis in a literal is counted by the scan, which can then strip two unrelated groups. */
  lemma StripperMiscounts(h: SidText)
    ensures var c := And(Or(ODD, ZERO), Or(ZERO, ZERO));
      PrintableCond(h, c) && ParseText(h, Print(h, c, 0)) == None
  {
    hide ParseText, Strips, Print, ZERO, ODD, NoParens;
    var q, tail, both := "\"", "\" == 0 || 0 == 0", "0 == 0 || 0 == 0";
    MiscountedPrint(h);
    PrintedTests(h, 1);
    assert PrintableCond(h, Or(ODD, ZERO)) && PrintableCond(h, Or(ZERO, ZERO));
    PiecesPlain();
    TwoGroupsStrip(q, tail, " && ", both);
    BareReads(h, And(Or(ODD, ZERO), Or(ZERO, ZERO)));
  }

  lemma PiecesPlain()
    ensures NoParens("\"") && NoParens("\" == 0 || 0 == 0") && NoParens(" && ") && NoParens("0 == 0 || 0 == 0")
  {
  }

  lemma MiscountedPrint(h: SidText)
    ensures var q, tail, both := "\"", "\" == 0 || 0 == 0", "0 == 0 || 0 == 0";
      Print(h, And(Or(ODD, ZERO), Or(ZERO, ZERO)), 0)
      == "(" + (q + ("(" + (tail + (")" + (" && " + ("(" + (both + ")")))))))
  {
    hide Print, ZERO, ODD;
    PrintedGroups(h, ODD, ZERO);
    PrintedGroups(h, ZERO, ZERO);
    PrintedGroups(h, Or(ODD, ZERO), Or(ZERO, ZERO));
    MiscountedText(h);
    Regroup("\"", "\" == 0 || 0 == 0", " && ", "0 == 0 || 0 == 0");
  }

  // ---- meaning ----

  lemma {:induction false} NormKeepsMeaning(env: Cond -> Truth, c: Cond)
    ensures Eval(env, Norm(c)) == Eval(env, c)
    decreases c, 0
  {
    match c
    case And(a, b) =>
      NormKeepsMeaning(env, a);
      FoldAndMeans(env, Norm(a), b);
    case Or(a, b) =>
      NormKeepsMeaning(env, a);
      FoldOrMeans(env, Norm(a), b);
    case Not(d) => NormKeepsMeaning(env, d);
    case _ =>
  }

  lemma {:induction false} FoldAndMeans(env: Cond -> Truth, lhs: Cond, c: Cond)
    ensures Eval(env, FoldAnd(lhs, c)) == AndT(Eval(env, lhs), Eval(env, c))
    decreases c, 1
  {
    if c.And? {
      FoldAndMeans(env, lhs, c.a);
      FoldAndMeans(env, FoldAnd(lhs, c.a), c.b);
    } else {
      NormKeepsMeaning(env, c);
    }
  }

  lemma {:induction false} FoldOrMeans(env: Cond -> Truth, lhs: Cond, c: Cond)
    ensures Eval(env, FoldOr(lhs, c)) == OrT(Eval(env, lhs), Eval(env, c))
    decreases c, 1
  {
    if c.Or? {
      FoldOrMeans(env, lhs, c.a);
      FoldOrMeans(env, FoldOr(lhs, c.a), c.b);
    } else {
      NormKeepsMeaning(env, c);
    }
  }

  /** No chain continues on its right. */
  predicate LeftNested(c: Cond) {
    match c
    case And(a, b) => LeftNested(a) && LeftNested(b) && !b.And?
    case Or(a, b) => LeftNested(a) && LeftNested(b) && !b.Or?
    case Not(d) => LeftNested(d)
    case _ => true
  }

  lemma {:induction false} NormNests(c: Cond)
    ensures LeftNested(Norm(c))
    ensures !c.And? ==> !Norm(c).And?
    ensures !c.Or? ==> !Norm(c).Or?
    decreases c, 0
  {
    match c
    case And(a, b) =>
      NormNests(a);
      FoldAndNests(Norm(a), b);
    case Or(a, b) =>
      NormNests(a);
      FoldOrNests(Norm(a), b);
    case Not(d) => NormNests(d);
    case _ =>
  }

  lemma {:induction false} FoldAndNests(lhs: Cond, c: Cond)
    requires LeftNested(lhs)
    ensures LeftNested(FoldAnd(lhs, c)) && FoldAnd(lhs, c).And?
    decreases c, 1
  {
    if c.And? {
      FoldAndNests(lhs, c.a);
      FoldAndNests(FoldAnd(lhs, c.a), c.b);
    } else {
      NormNests(c);
    }
  }

  lemma {:induction false} FoldOrNests(lhs: Cond, c: Cond)
    requires LeftNested(lhs)
    ensures LeftNested(FoldOr(lhs, c)) && FoldOr(lhs, c).Or?
    decreases c, 1
  {
    if c.Or? {
      FoldOrNests(lhs, c.a);
      FoldOrNests(FoldOr(lhs, c.a), c.b);
    } else {
      NormNests(c);
    }
  }

  lemma {:induction false} NestedIsNormal(c: Cond)
    requires LeftNested(c)
    ensures Norm(c) == c
  {
    match c
    case And(a, b) =>
      NestedIsNormal(a);
      NestedIsNormal(b);
    case Or(a, b) =>
      NestedIsNormal(a);
      NestedIsNormal(b);
    case Not(d) => NestedIsNormal(d);
    case _ =>
  }
}
