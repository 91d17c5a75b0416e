/**
 * The grammar of conditional expressions, written out, and the proof that the parser decides it: a text
 * parses to a condition exactly when it spells one that means it.
 */
module CondGrammar {
  import opened Bytes
  import opened SidWire
  import opened Condition
  import opened CondText
  import opened CondParse
  import opened CondSpelling

  // ---- conditions as they are written ----

  /** One test; `pre` is the blanks before an operand. */
  datatype WrittenTest =
    | ExistsW(negated: bool, word: string, pre: string, o: Written)
    | MemberW(op: MemberOp, word: string, pre: string, o: Written)
    | CompareW(l: Written, mid: string, rel: CompareOp, word: string, pre: string, r: Written)

  datatype WrittenUnary =
    | TestU(pre: string, t: WrittenTest)
    | NotU(pre: string, u: WrittenUnary)
    | GroupU(pre: string, e: WrittenExpr, post: string)

  datatype WrittenAnd = OneU(u: WrittenUnary) | AndU(a: WrittenAnd, mid: string, u: WrittenUnary)

  datatype WrittenExpr = OneA(a: WrittenAnd) | OrA(e: WrittenExpr, mid: string, a: WrittenAnd)

  /** The words and symbols of the operators. */
  function MemberWord(op: MemberOp): string {
    match op
    case MemberOf => "Member_of" case DeviceMemberOf => "Device_Member_of"
    case MemberOfAny => "Member_of_Any" case DeviceMemberOfAny => "Device_Member_of_Any"
    case NotMemberOf => "Not_Member_of" case NotDeviceMemberOf => "Not_Device_Member_of"
    case NotMemberOfAny => "Not_Member_of_Any" case NotDeviceMemberOfAny => "Not_Device_Member_of_Any"
  }

  function RelationWord(op: CompareOp): string {
    match op
    case Eq => "==" case Ne => "!=" case Lt => "<" case Le => "<=" case Gt => ">" case Ge => ">="
    case Contains => "Contains" case AnyOf => "Any_of" case NotContains => "Not_Contains" case NotAnyOf => "Not_Any_of"
  }

  function ExistsWord(negated: bool): string {
    if negated then "Not_Exists" else "Exists"
  }

  function TestText(t: WrittenTest): string {
    match t
    case ExistsW(_, word, pre, o) => word + (pre + Text(o))
    case MemberW(_, word, pre, o) => word + (pre + Text(o))
    case CompareW(l, mid, _, word, pre, r) => Text(l) + (mid + (word + (pre + Text(r))))
  }

  function UnaryText(u: WrittenUnary): string {
    match u
    case TestU(pre, t) => pre + TestText(t)
    case NotU(pre, v) => pre + ("!" + UnaryText(v))
    case GroupU(pre, e, post) => pre + ("(" + (ExprText(e) + (post + ")")))
  }

  function AndText(a: WrittenAnd): string {
    match a
    case OneU(u) => UnaryText(u)
    case AndU(b, mid, u) => AndText(b) + (mid + ("&&" + UnaryText(u)))
  }

  function ExprText(e: WrittenExpr): string {
    match e
    case OneA(a) => AndText(a)
    case OrA(f, mid, a) => ExprText(f) + (mid + ("||" + AndText(a)))
  }

  function TestMeant(t: WrittenTest): Cond {
    match t
    case ExistsW(negated, _, _, o) => if negated then NotExists(Meant(o)) else Exists(Meant(o))
    case MemberW(op, _, _, o) => Member(op, Meant(o))
    case CompareW(l, _, op, _, _, r) => Compare(op, Meant(l), Meant(r))
  }

  function UnaryMeant(u: WrittenUnary): Cond {
    match u
    case TestU(_, t) => TestMeant(t)
    case NotU(_, v) => Not(UnaryMeant(v))
    case GroupU(_, e, _) => ExprMeant(e)
  }

  function AndMeant(a: WrittenAnd): Cond {
    match a
    case OneU(u) => UnaryMeant(u)
    case AndU(b, _, u) => And(AndMeant(b), UnaryMeant(u))
  }

  function ExprMeant(e: WrittenExpr): Cond {
    match e
    case OneA(a) => AndMeant(a)
    case OrA(f, _, a) => Or(ExprMeant(f), AndMeant(a))
  }

  /** A word in any case, and nothing that would run on from it; a symbol as it is. */
  predicate SpelledRelation(op: CompareOp, word: string, after: string) {
    if op in {Eq, Ne, Lt, Le, Gt, Ge} then word == RelationWord(op) else Cased(word, RelationWord(op)) && Breaks(after)
  }

  predicate SpelledTest(h: SidText, t: WrittenTest) {
    match t
    case ExistsW(negated, word, pre, o) =>
      Cased(word, ExistsWord(negated)) && Blanks(pre) && Spelled(h, o) && Breaks(pre + Text(o))
    case MemberW(op, word, pre, o) =>
      Cased(word, MemberWord(op)) && Blanks(pre) && Spelled(h, o) && Breaks(pre + Text(o))
    case CompareW(l, mid, op, word, pre, r) =>
      && Spelled(h, l) && Blanks(mid) && SpelledRelation(op, word, pre + Text(r)) && Blanks(pre) && Spelled(h, r)
      && Ends(l, mid + word)
  }

  predicate SpelledUnary(h: SidText, u: WrittenUnary) {
    match u
    case TestU(pre, t) => Blanks(pre) && SpelledTest(h, t)
    case NotU(pre, v) => Blanks(pre) && SpelledUnary(h, v)
    case GroupU(pre, e, post) => Blanks(pre) && SpelledExpr(h, e) && Blanks(post)
  }

  predicate SpelledAnd(h: SidText, a: WrittenAnd) {
    match a
    case OneU(u) => SpelledUnary(h, u)
    case AndU(b, mid, u) => SpelledAnd(h, b) && Blanks(mid) && SpelledUnary(h, u)
  }

  predicate SpelledExpr(h: SidText, e: WrittenExpr) {
    match e
    case OneA(a) => SpelledAnd(h, a)
    case OrA(f, mid, a) => SpelledExpr(h, f) && Blanks(mid) && SpelledAnd(h, a)
  }

  // ---- keywords ----

  /** A keyword is read exactly where one of its casings stands and does not run on. */
  lemma KeywordIs(s: string, kw: string)
    requires |kw| <= |s|
    ensures Keyword(s, kw) <==> Cased(s[..|kw|], kw) && Breaks(s[|kw|..])
  {
    hide StartsCi, Cased, IdentChar, NameChar;
    assert s == s[..|kw|] + s[|kw|..];
    StartsCased(s[..|kw|], kw, s[|kw|..]);
    if |s| > |kw| {
      assert s[|kw|..][0] == s[|kw|];
      NameCharIs(s[|kw|]);
    }
  }

  /** A word made of name characters and what does not run on from it decide which keyword is there. */
  lemma OnlyItself(w: string, kw: string, after: string)
    requires Breaks(after) && (forall i :: 0 <= i < |w| ==> NameChar(w[i])) && (forall i :: 0 <= i < |kw| ==> NameChar(kw[i]))
    ensures Keyword(w + after, kw) <==> Cased(w, kw)
  {
    hide Keyword, NameChar;
    var s := w + after;
    if |kw| <= |s| {
      KeywordIs(s, kw);
      if |kw| == |w| {
        assert s[..|kw|] == w && s[|kw|..] == after;
      } else if |kw| < |w| {
        assert s[|kw|..][0] == w[|kw|];
      } else {
        assert s[|w|] == after[0] && s[..|kw|][|w|] == after[0];
        CasedNames(s[..|kw|], kw, |w|);
      }
    } else {
      NotShort(s, kw);
    }
  }

  lemma NotShort(s: string, kw: string)
    requires |s| < |kw|
    ensures !Keyword(s, kw)
  {
  }

  lemma CasedNames(w: string, kw: string, i: nat)
    requires i < |w| == |kw| && NameChar(kw[i]) && !NameChar(w[i])
    ensures !Cased(w, kw)
  {
    if SameLetter(w[i], kw[i]) {
      assert false;
    }
  }

  lemma CasedIsName(w: string, kw: string)
    requires Cased(w, kw) && forall i :: 0 <= i < |kw| ==> NameChar(kw[i])
    ensures forall i :: 0 <= i < |w| ==> NameChar(w[i])
  {
    forall i | 0 <= i < |w| ensures NameChar(w[i]) {
      assert SameLetter(w[i], kw[i]);
    }
  }

  lemma CasedBoth(w: string, a: string, b: string)
    requires Cased(w, a)
    ensures Cased(w, b) <==> Cased(a, b)
  {
    forall i | 0 <= i < |w| ensures |a| == |b| ==> (SameLetter(w[i], b[i]) <==> SameLetter(a[i], b[i])) {
      assert SameLetter(w[i], a[i]);
    }
  }

  lemma CasedIsSameCi(a: string, b: string)
    ensures Cased(a, b) <==> SameCi(a, b)
  {
    forall i | 0 <= i < |a| ensures |a| == |b| ==> (SameLetter(a[i], b[i]) <==> Lower(a[i]) == Lower(b[i])) {
      if |a| == |b| {
        SameLetterIs(a[i], b[i]);
      }
    }
  }

  lemma WordIsNames(s: string)
    requires Word(s)
    ensures forall i :: 0 <= i < |s| ==> NameChar(s[i])
  {
    forall i | 0 <= i < |s| ensures NameChar(s[i]) {
      NameCharIs(s[i]);
    }
  }

  lemma ExistsIsWord(negated: bool)
    ensures Word(ExistsWord(negated))
  {
  }

  lemma ExistsApart(negated: bool)
    ensures !Cased(ExistsWord(negated), ExistsWord(!negated))
  {
  }

  lemma SameWords(op: MemberOp, rel: CompareOp)
    ensures MemberWord(op) == MemberText(op) && RelationWord(rel) == CompareText(rel)
  {
  }

  /** What a keyword test says of a word that is some keyword in some casing. */
  lemma KeywordOf(w: string, mine: string, other: string, after: string)
    requires Cased(w, mine) && Breaks(after) && Word(mine) && Word(other)
    ensures Keyword(w + after, other) <==> SameCi(mine, other)
  {
    hide Cased, NameChar, Keyword, SameCi, Word;
    WordIsNames(mine);
    WordIsNames(other);
    CasedIsName(w, mine);
    OnlyItself(w, other, after);
    CasedBoth(w, mine, other);
    CasedIsSameCi(mine, other);
  }

  lemma {:induction false} MemberReads(op: MemberOp, w: string, after: string, ops: seq<MemberOp>)
    requires op in ops && Cased(w, MemberWord(op)) && Breaks(after)
    ensures FirstMember(w + after, ops) == Some(op)
  {
    hide MemberText, MemberWord, Cased, Breaks, Keyword, SameCi, Word;
    SameWords(op, Eq);
    MemberWords(op, ops[0]);
    MemberIsWord(op);
    MemberIsWord(ops[0]);
    KeywordOf(w, MemberText(op), MemberText(ops[0]), after);
    if ops[0] != op {
      MemberReads(op, w, after, ops[1..]);
    }
  }

  /** What a keyword search finds is there. */
  lemma {:induction false} MemberThere(s: string, ops: seq<MemberOp>)
    requires FirstMember(s, ops).Some?
    ensures Keyword(s, MemberText(FirstMember(s, ops).value))
  {
    hide MemberText, Keyword;
    if !Keyword(s, MemberText(ops[0])) {
      MemberThere(s, ops[1..]);
    }
  }

  lemma {:induction false} RelationWordReads(op: CompareOp, w: string, after: string, ops: seq<CompareOp>)
    requires op in ops && (forall i :: 0 <= i < |ops| ==> !IsSymbol(ops[i]))
    requires Cased(w, CompareText(op)) && Breaks(after)
    ensures FirstWord(w + after, ops) == Some(op)
  {
    hide CompareText, Cased, Breaks, Keyword, SameCi, Word;
    CompareWords(op, ops[0]);
    CompareWords(ops[0], op);
    KeywordOf(w, CompareText(op), CompareText(ops[0]), after);
    if ops[0] != op {
      RelationWordReads(op, w, after, ops[1..]);
    }
  }

  lemma {:induction false} NoSymbolHere(s: string, ops: seq<CompareOp>)
    requires s != "" && s[0] !in "=!<>" && forall i :: 0 <= i < |ops| ==> IsSymbol(ops[i])
    ensures FirstSymbol(s, ops) == None
  {
    if ops != [] {
      assert CompareText(ops[0])[0] in "=!<>";
      NoSymbolHere(s, ops[1..]);
    }
  }

  lemma RelationHead(op: CompareOp, w: string)
    requires !IsSymbol(op) && Cased(w, CompareText(op))
    ensures w != "" && w[0] !in "=!<>" && !Space(w[0])
  {
    assert SameLetter(w[0], CompareText(op)[0]);
  }

  lemma SymbolReads(op: CompareOp, after: string)
    requires IsSymbol(op) && (after == "" || after[0] != '=')
    ensures FirstSymbol(CompareText(op) + after, COMPARE_SYMBOLS) == Some(op)
  {
    var s := CompareText(op) + after;
    assert s[0] == CompareText(op)[0];
    assert |CompareText(op)| == 2 ==> s[1] == CompareText(op)[1];
    assert |CompareText(op)| == 1 && |s| > 1 ==> s[1] == after[0];
    var k := match op case Eq => 0 case Ne => 1 case Le => 2 case Ge => 3 case Lt => 4 case _ => 5;
    forall i | 0 <= i < k
      ensures !Starts(s, CompareText(COMPARE_SYMBOLS[i]))
    {
      var t := CompareText(COMPARE_SYMBOLS[i]);
      assert t[0] != s[0] || (|t| == 2 && (|s| < 2 || t[1] != s[1]));
    }
    SymbolSearch(k, s, COMPARE_SYMBOLS);
  }

  lemma RelationReads(op: CompareOp, word: string, after: string)
    requires SpelledRelation(op, word, after) && (after == "" || after[0] != '=')
    ensures word != "" && !Space(word[0]) && ReadCompareOp(word + after) == Got(op, after)
  {
    hide CompareText, RelationWord, Cased, Breaks, FirstSymbol, FirstWord;
    SameWords(MemberOf, op);
    var s := word + after;
    if IsSymbol(op) {
      SymbolReads(op, after);
      CompareOpHead(op);
      assert s[|word|..] == after;
    } else {
      RelationHead(op, word);
      CasedLength(word, CompareText(op));
      NoSymbolHere(s, COMPARE_SYMBOLS);
      RelationWordReads(op, word, after, COMPARE_WORDS);
      assert s[|word|..] == after;
    }
  }

  lemma {:induction false} SymbolThere(s: string, ops: seq<CompareOp>)
    requires FirstSymbol(s, ops).Some?
    ensures FirstSymbol(s, ops).value in ops && Starts(s, CompareText(FirstSymbol(s, ops).value))
  {
    hide CompareText;
    if !Starts(s, CompareText(ops[0])) {
      SymbolThere(s, ops[1..]);
    }
  }

  lemma {:induction false} WordThere(s: string, ops: seq<CompareOp>)
    requires FirstWord(s, ops).Some?
    ensures FirstWord(s, ops).value in ops && Keyword(s, CompareText(FirstWord(s, ops).value))
  {
    hide CompareText, Keyword;
    if !Keyword(s, CompareText(ops[0])) {
      WordThere(s, ops[1..]);
    }
  }

  lemma RelationWritten(s: string) returns (word: string)
    requires ReadCompareOp(s).Got?
    ensures word != "" && s == word + ReadCompareOp(s).rest
    ensures SpelledRelation(ReadCompareOp(s).v, word, ReadCompareOp(s).rest)
  {
    hide CompareText, RelationWord, Cased, Breaks, Keyword, FirstSymbol, FirstWord;
    var op := ReadCompareOp(s).v;
    SameWords(MemberOf, op);
    CompareOpHead(op);
    var n := |CompareText(op)|;
    word := s[..n];
    if FirstSymbol(s, COMPARE_SYMBOLS).Some? {
      SymbolThere(s, COMPARE_SYMBOLS);
      assert word == CompareText(op);
    } else {
      WordThere(s, COMPARE_WORDS);
      KeywordIs(s, CompareText(op));
    }
  }

  // ---- every spelling parses to what it means ----

  /** Blanks and an operand start with a blank or with the operand's first character. */
  lemma StartsWithOperand(h: SidText, pre: string, w: Written, rest: string)
    requires Blanks(pre) && Spelled(h, w)
    ensures var s := pre + (Text(w) + rest);
      && s != "" && s[0] != '=' && s[0] == (pre + Text(w))[0]
      && (Breaks(pre + Text(w)) <==> Breaks(s))
  {
    hide Text, Spelled, Heads, NameChar;
    Headed(h, w);
    HeadsApart(w, Text(w)[0]);
    var s := pre + (Text(w) + rest);
    assert s[0] == if pre == "" then Text(w)[0] else pre[0];
  }

  lemma Regrouped(word: string, pre: string, o: string, rest: string)
    ensures word + (pre + o) + rest == word + (pre + (o + rest))
    ensures (word + (pre + (o + rest)))[|word|..] == pre + (o + rest)
  {
  }

  lemma ExistsReads(h: SidText, negated: bool, word: string, pre: string, w: Written, rest: string)
    requires SpelledTest(h, ExistsW(negated, word, pre, w)) && Breaks(rest)
    ensures ParseTest(h, word + (pre + Text(w)) + rest) == Got(TestMeant(ExistsW(negated, word, pre, w)), rest)
  {
    hide ReadOperand, Text, Meant, Spelled, Keyword, FirstMember, ParseComparison, Cased, Breaks, Blanks, SameCi, Word;
    var after := pre + (Text(w) + rest);
    Regrouped(word, pre, Text(w), rest);
    StartsWithOperand(h, pre, w, rest);
    ExistsIsWord(negated);
    ExistsIsWord(!negated);
    KeywordOf(word, ExistsWord(negated), ExistsWord(negated), after);
    KeywordOf(word, ExistsWord(negated), ExistsWord(!negated), after);
    SameSelf(ExistsWord(negated));
    CasedIsSameCi(ExistsWord(negated), ExistsWord(!negated));
    ExistsApart(negated);
    CasedLength(word, ExistsWord(negated));
    BreaksEnds(w, rest);
    OperandReads(h, pre, w, rest);
  }

  lemma MemberTestReads(h: SidText, op: MemberOp, word: string, pre: string, w: Written, rest: string)
    requires SpelledTest(h, MemberW(op, word, pre, w)) && Breaks(rest)
    ensures ParseTest(h, word + (pre + Text(w)) + rest) == Got(Member(op, Meant(w)), rest)
  {
    hide ReadOperand, Text, Meant, Spelled, Keyword, FirstMember, ParseComparison, Cased, Breaks, Blanks, SameCi, Word,
         MemberText, MemberWord;
    var after := pre + (Text(w) + rest);
    Regrouped(word, pre, Text(w), rest);
    StartsWithOperand(h, pre, w, rest);
    SameWords(op, Eq);
    MemberIsWord(op);
    MemberWords(op, op);
    ExistsIsWord(false);
    ExistsIsWord(true);
    KeywordOf(word, MemberText(op), "Exists", after);
    KeywordOf(word, MemberText(op), "Not_Exists", after);
    MemberReads(op, word, after, MEMBER_OPS);
    CasedLength(word, MemberText(op));
    BreaksEnds(w, rest);
    OperandReads(h, pre, w, rest);
  }

  lemma NoKeyword(h: SidText, w: Written, c: char)
    requires Heads(w, c)
    ensures Lower(c) !in {'n', 'd', 'm', 'e'}
  {
  }

  lemma CompareParts(l: string, mid: string, word: string, pre: string, r: string, rest: string)
    ensures l + (mid + (word + (pre + r))) + rest == l + (mid + (word + (pre + (r + rest))))
  {
  }

  lemma EndsEarly(w: Written, mid: string, word: string, after: string)
    requires word != ""
    ensures Ends(w, mid + word) <==> Ends(w, mid + (word + after))
  {
    var s := mid + (word + after);
    assert s[0] == (mid + word)[0];
  }

  lemma CompareReads(h: SidText, t: WrittenTest, rest: string)
    requires t.CompareW? && SpelledTest(h, t) && Breaks(rest)
    ensures ParseTest(h, TestText(t) + rest) == Got(TestMeant(t), rest)
  {
    hide ReadOperand, Text, Meant, Spelled, Breaks, Blanks, ParseTest, ReadCompareOp, Ends, Heads, SpelledRelation;
    var CompareW(l, mid, op, word, pre, r) := t;
    var after := pre + (Text(r) + rest);
    var tail := mid + (word + after);
    var s := Text(l) + tail;
    CompareParts(Text(l), mid, word, pre, Text(r), rest);
    Headed(h, l);
    NoKeyword(h, l, Text(l)[0]);
    assert s[0] == Text(l)[0];
    OnlyComparison(h, s);
    StartsWithOperand(h, pre, r, rest);
    RelationAfter(op, word, pre + Text(r), after);
    RelationReads(op, word, after);
    EndsEarly(l, mid, word, after);
    OperandHere(h, l, tail);
    assert (word + after)[0] == word[0];
    SkipBlanks(mid, word + after);
    BreaksEnds(r, rest);
    OperandReads(h, pre, r, rest);
  }

  lemma RelationAfter(op: CompareOp, word: string, x: string, y: string)
    requires Breaks(x) <==> Breaks(y)
    ensures SpelledRelation(op, word, x) <==> SpelledRelation(op, word, y)
  {
  }

  lemma TestReads(h: SidText, t: WrittenTest, rest: string)
    requires SpelledTest(h, t) && Breaks(rest)
    ensures ParseTest(h, TestText(t) + rest) == Got(TestMeant(t), rest)
  {
    hide ParseTest, SpelledTest, Breaks, Text, Meant;
    match t
    case ExistsW(negated, word, pre, o) => ExistsReads(h, negated, word, pre, o, rest);
    case MemberW(op, word, pre, o) => MemberTestReads(h, op, word, pre, o, rest);
    case CompareW(_, _, _, _, _, _) => CompareReads(h, t, rest);
  }

  lemma TestHead(h: SidText, t: WrittenTest)
    requires SpelledTest(h, t)
    ensures var s := TestText(t); s != "" && !Space(s[0]) && s[0] != '(' && s[0] != '!'
  {
    hide Text, Spelled, Breaks, Blanks, Ends, Heads, SpelledRelation, Cased, MemberWord;
    match t
    case ExistsW(negated, word, _, _) => WordHead(word, ExistsWord(negated));
    case MemberW(op, word, _, _) =>
      SameWords(op, Eq);
      MemberHead(op);
      WordHead(word, MemberWord(op));
    case CompareW(l, _, _, _, _, _) =>
      Headed(h, l);
      HeadsApart(l, Text(l)[0]);
  }

  lemma WordHead(w: string, kw: string)
    requires Cased(w, kw) && kw != "" && 'A' <= kw[0] <= 'Z'
    ensures w != "" && !Space(w[0]) && w[0] != '(' && w[0] != '!'
  {
    assert SameLetter(w[0], kw[0]);
  }

  // One step of each function of the grammar, past any blanks.

  lemma UnaryPasses(h: SidText, pre: string, s: string)
    requires Blanks(pre) && s != "" && !Space(s[0])
    ensures ParseUnary(h, pre + s) == ParseUnary(h, s)
  {
    hide ParsePrimary;
    SkipBlanks(pre, s);
    NoSkip(s);
  }

  lemma UnarySkips(h: SidText, s: string)
    ensures ParseUnary(h, SkipWs(s)) == ParseUnary(h, s)
  {
    hide ParsePrimary;
    NoSkip(SkipWs(s));
  }

  lemma AndSkips(h: SidText, s: string)
    ensures ParseAnd(h, SkipWs(s)) == ParseAnd(h, s)
  {
    hide ParseUnary, AndLoop;
    UnarySkips(h, s);
  }

  lemma AfterNot(h: SidText, t: string)
    ensures var r := ParseUnary(h, t); ParseUnary(h, "!" + t) == if r.Fail? then Fail else Got(Not(r.v), r.rest)
  {
    hide ParsePrimary;
    NoSkip("!" + t);
    assert ("!" + t)[1..] == t;
    UnarySkips(h, t);
  }

  /** The operator between two parts of a chain. */
  lemma AtOperator(mid: string, op: string, t: string)
    requires Blanks(mid) && |op| == 2 && !Space(op[0])
    ensures var s := SkipWs(mid + (op + t)); s == op + t && Starts(s, op) && s[0] == op[0] && s[2..] == t
  {
    SkipBlanks(mid, op + t);
  }

  lemma AndGoesOn(h: SidText, lhs: Cond, mid: string, t: string)
    requires Blanks(mid)
    ensures var r := ParseUnary(h, t);
      AndLoop(h, lhs, mid + ("&&" + t)) == if r.Fail? then Fail else AndLoop(h, And(lhs, r.v), r.rest)
  {
    hide ParseUnary, Blanks;
    AtOperator(mid, "&&", t);
    UnarySkips(h, t);
  }

  lemma OrGoesOn(h: SidText, lhs: Cond, mid: string, t: string)
    requires Blanks(mid)
    ensures var r := ParseAnd(h, t);
      OrLoop(h, lhs, mid + ("||" + t)) == if r.Fail? then Fail else OrLoop(h, Or(lhs, r.v), r.rest)
  {
    hide ParseAnd, Blanks;
    AtOperator(mid, "||", t);
    AndSkips(h, t);
  }

  lemma OrStopsAt(h: SidText, lhs: Cond, post: string, rest: string)
    requires Blanks(post)
    ensures OrLoop(h, lhs, post + (")" + rest)) == Got(lhs, ")" + rest)
  {
    hide ParseAnd;
    SkipBlanks(post, ")" + rest);
  }

  lemma OperatorBreaks(mid: string, op: string, t: string)
    requires Blanks(mid) && (op == "&&" || op == "||" || op == ")")
    ensures Breaks(mid + (op + t)) && (op != "&&" ==> !Starts(SkipWs(mid + (op + t)), "&&"))
  {
    assert op + t == [op[0]] + (op[1..] + t);
    BlanksBreak(mid, op[0], op[1..] + t);
    SkipBlanks(mid, op + t);
  }

  lemma {:induction false} UnaryReads(h: SidText, u: WrittenUnary, rest: string)
    requires SpelledUnary(h, u) && Breaks(rest)
    ensures ParseUnary(h, UnaryText(u) + rest) == Got(UnaryMeant(u), rest)
    decreases u, 0
  {
    hide ParseUnary, ParseTest, ParseExpr, OrLoop, Blanks, SpelledTest, TestText, TestMeant, Breaks;
    match u
    case TestU(pre, t) =>
      var s := TestText(t) + rest;
      assert pre + TestText(t) + rest == pre + s;
      TestHead(h, t);
      assert s[0] == TestText(t)[0];
      UnaryPasses(h, pre, s);
      UnaryTest(h, s);
      TestReads(h, t, rest);
    case NotU(pre, v) =>
      var s := UnaryText(v) + rest;
      assert pre + ("!" + UnaryText(v)) + rest == pre + ("!" + s);
      UnaryPasses(h, pre, "!" + s);
      AfterNot(h, s);
      UnaryReads(h, v, rest);
    case GroupU(pre, e, post) =>
      var tail := post + (")" + rest);
      var s := ExprText(e) + tail;
      GroupParts(pre, ExprText(e), post, rest);
      UnaryPasses(h, pre, "(" + s);
      OperatorBreaks(post, ")", rest);
      assert EndsChain(tail);
      ExprReads(h, e, tail);
      OrStopsAt(h, ExprMeant(e), post, rest);
      UnaryGroup(h, s, ExprMeant(e), rest);
  }

  lemma GroupParts(pre: string, e: string, post: string, rest: string)
    ensures pre + ("(" + (e + (post + ")"))) + rest == pre + ("(" + (e + (post + (")" + rest))))
  {
  }

  lemma ChainParts(a: string, mid: string, op: string, t: string, rest: string)
    ensures a + (mid + (op + t)) + rest == a + (mid + (op + (t + rest)))
  {
  }

  lemma {:induction false} AndReads(h: SidText, a: WrittenAnd, rest: string)
    requires SpelledAnd(h, a) && Breaks(rest)
    ensures ParseAnd(h, AndText(a) + rest) == AndLoop(h, AndMeant(a), rest)
    decreases a, 1
  {
    hide ParseUnary, AndLoop, Blanks, Breaks, SpelledUnary, UnaryText, UnaryMeant;
    match a
    case OneU(u) => UnaryReads(h, u, rest);
    case AndU(b, mid, u) =>
      var t := UnaryText(u) + rest;
      ChainParts(AndText(b), mid, "&&", UnaryText(u), rest);
      OperatorBreaks(mid, "&&", t);
      AndReads(h, b, mid + ("&&" + t));
      AndGoesOn(h, AndMeant(b), mid, t);
      UnaryReads(h, u, rest);
  }

  /** Nothing after it extends an `&&` chain. */
  predicate EndsChain(rest: string) {
    Breaks(rest) && !Starts(SkipWs(rest), "&&")
  }

  lemma {:induction false} WholeAnd(h: SidText, a: WrittenAnd, rest: string)
    requires SpelledAnd(h, a) && EndsChain(rest)
    ensures ParseAnd(h, AndText(a) + rest) == Got(AndMeant(a), SkipWs(rest))
    decreases a, 2
  {
    hide ParseAnd, ParseUnary, SpelledAnd, AndText, AndMeant, Breaks;
    AndReads(h, a, rest);
  }

  lemma {:induction false} ExprReads(h: SidText, e: WrittenExpr, rest: string)
    requires SpelledExpr(h, e) && EndsChain(rest)
    ensures ParseExpr(h, ExprText(e) + rest) == OrLoop(h, ExprMeant(e), rest)
    decreases e, 3
  {
    hide ParseAnd, OrLoop, Blanks, EndsChain, SpelledAnd, AndText, AndMeant;
    match e
    case OneA(a) =>
      WholeAnd(h, a, rest);
      OrLoopSkips(h, AndMeant(a), rest);
    case OrA(f, mid, a) =>
      var t := AndText(a) + rest;
      ChainParts(ExprText(f), mid, "||", AndText(a), rest);
      assert EndsChain(mid + ("||" + t)) by { OperatorEnds(mid, t); }
      ExprReads(h, f, mid + ("||" + t));
      OrGoesOn(h, ExprMeant(f), mid, t);
      WholeAnd(h, a, rest);
      OrLoopSkips(h, Or(ExprMeant(f), AndMeant(a)), rest);
  }

  lemma OperatorEnds(mid: string, t: string)
    requires Blanks(mid)
    ensures EndsChain(mid + ("||" + t))
  {
    hide Blanks, Breaks;
    OperatorBreaks(mid, "||", t);
  }

  // ---- and nothing else parses ----

  lemma KeywordWritten(s: string, kw: string) returns (word: string)
    requires Keyword(s, kw)
    ensures |s| >= |kw| && word == s[..|kw|] && Cased(word, kw) && Breaks(s[|kw|..])
  {
    KeywordIs(s, kw);
    word := s[..|kw|];
  }

  /** An operand after a keyword. */
  lemma OperandAfter(h: SidText, s: string, kw: string) returns (word: string, pre: string, o: Written)
    requires Keyword(s, kw) && ReadOperand(h, s[|kw|..]).Got?
    ensures Cased(word, kw) && Blanks(pre) && Spelled(h, o) && Breaks(pre + Text(o))
    ensures var r := ReadOperand(h, s[|kw|..]); Meant(o) == r.v && s == word + (pre + Text(o)) + r.rest
  {
    hide ReadOperand, Text, Meant, Spelled, Keyword, Cased, Breaks, Blanks, Ends;
    word := KeywordWritten(s, kw);
    var after := s[|kw|..];
    pre, o := OperandWritten(h, after);
    var rest := ReadOperand(h, after).rest;
    StartsWithOperand(h, pre, o, rest);
    Regrouped(word, pre, Text(o), rest);
    assert s == word + after;
  }

  lemma CompareWritten(h: SidText, t: string) returns (w: WrittenTest)
    requires (t == "" || !Space(t[0])) && ParseComparison(h, t).Got?
    ensures SpelledTest(h, w) && TestMeant(w) == ParseComparison(h, t).v && t == TestText(w) + ParseComparison(h, t).rest
  {
    hide ReadOperand, Text, Meant, Spelled, Breaks, Blanks, ReadCompareOp, Ends, SpelledRelation;
    var none, l := OperandWritten(h, t);
    var tail := ReadOperand(h, t).rest;
    NoBlanksLeft(none, t, Text(l) + tail);
    var mid := Skipped(tail);
    var word := RelationWritten(SkipWs(tail));
    var got := ReadCompareOp(SkipWs(tail));
    var pre, r := OperandWritten(h, got.rest);
    var rest := ReadOperand(h, got.rest).rest;
    w := CompareW(l, mid, got.v, word, pre, r);
    CompareParts(Text(l), mid, word, pre, Text(r), rest);
    StartsWithOperand(h, pre, r, rest);
    RelationAfter(got.v, word, pre + Text(r), got.rest);
    EndsEarly(l, mid, word, got.rest);
  }

  lemma TestWritten(h: SidText, t: string) returns (w: WrittenTest)
    requires (t == "" || !Space(t[0])) && ParseTest(h, t).Got?
    ensures SpelledTest(h, w) && TestMeant(w) == ParseTest(h, t).v && t == TestText(w) + ParseTest(h, t).rest
  {
    hide ReadOperand, Text, Meant, Spelled, Keyword, Cased, Breaks, Blanks, Ends, FirstMember, MemberText, MemberWord,
         ParseComparison, SpelledRelation;
    if Keyword(t, "Exists") {
      var word, pre, o := OperandAfter(h, t, "Exists");
      w := ExistsW(false, word, pre, o);
    } else if Keyword(t, "Not_Exists") {
      var word, pre, o := OperandAfter(h, t, "Not_Exists");
      w := ExistsW(true, word, pre, o);
    } else if FirstMember(t, MEMBER_OPS).Some? {
      var op := FirstMember(t, MEMBER_OPS).value;
      MemberThere(t, MEMBER_OPS);
      SameWords(op, Eq);
      var word, pre, o := OperandAfter(h, t, MemberText(op));
      w := MemberW(op, word, pre, o);
    } else {
      w := CompareWritten(h, t);
    }
  }

  lemma BlanksJoin(a: string, b: string)
    requires Blanks(a) && Blanks(b)
    ensures Blanks(a + b)
  {
  }

  lemma {:induction false} UnaryWritten(h: SidText, s: string) returns (u: WrittenUnary)
    requires ParseUnary(h, s).Got?
    ensures SpelledUnary(h, u) && UnaryMeant(u) == ParseUnary(h, s).v && s == UnaryText(u) + ParseUnary(h, s).rest
    decreases |s|, 2
  {
    hide ParsePrimary, ParseTest, ParseExpr, Blanks, SpelledTest, TestText, TestMeant, SpelledExpr, ExprText, ExprMeant;
    var t := SkipWs(s);
    var pre := Skipped(s);
    var rest := ParseUnary(h, s).rest;
    if Starts(t, "!") {
      UnarySkips(h, t[1..]);
      var v := UnaryWritten(h, t[1..]);
      u := NotU(pre, v);
      assert t == "!" + t[1..];
      NotParts(pre, UnaryText(v), rest);
    } else if Starts(t, "(") {
      var e, post := GroupWritten(h, t);
      u := GroupU(pre, e, post);
      GroupParts(pre, ExprText(e), post, rest);
    } else {
      assert ParsePrimary(h, t) == ParseTest(h, t) by { PrimaryTest(h, t); }
      var w := TestWritten(h, t);
      u := TestU(pre, w);
      assert pre + (TestText(w) + rest) == pre + TestText(w) + rest;
    }
  }

  lemma NotParts(pre: string, v: string, rest: string)
    ensures pre + ("!" + (v + rest)) == pre + ("!" + v) + rest
  {
  }

  lemma PrimaryTest(h: SidText, t: string)
    requires (t == "" || !Space(t[0])) && !Starts(t, "(")
    ensures ParsePrimary(h, t) == ParseTest(h, t)
  {
    hide ParseTest;
    NoSkip(t);
  }

  lemma {:induction false} GroupWritten(h: SidText, t: string) returns (e: WrittenExpr, post: string)
    requires t != "" && !Space(t[0]) && Starts(t, "(") && ParsePrimary(h, t).Got?
    ensures SpelledExpr(h, e) && Blanks(post) && ExprMeant(e) == ParsePrimary(h, t).v
    ensures t == "(" + (ExprText(e) + (post + (")" + ParsePrimary(h, t).rest)))
    decreases |t|, 1
  {
    hide ParseExpr, Blanks, SpelledExpr, ExprText, ExprMeant;
    NoSkip(t);
    var gap: string;
    e, gap := ExprWritten(h, t[1..]);
    var more := ParseExpr(h, t[1..]).rest;
    var v := SkipWs(more);
    var gap2 := Skipped(more);
    BlanksJoin(gap, gap2);
    post := gap + gap2;
    assert v == ")" + v[1..];
    assert t == "(" + t[1..];
    GapParts(ExprText(e), gap, gap2, v);
  }

  lemma GapParts(e: string, gap: string, gap2: string, v: string)
    ensures e + (gap + (gap2 + v)) == e + ((gap + gap2) + v)
  {
  }

  lemma {:induction false} AndWritten(h: SidText, s: string) returns (a: WrittenAnd, post: string)
    requires ParseAnd(h, s).Got?
    ensures SpelledAnd(h, a) && Blanks(post) && AndMeant(a) == ParseAnd(h, s).v
    ensures s == AndText(a) + (post + ParseAnd(h, s).rest)
    decreases |s|, 3
  {
    hide ParseUnary, AndLoop, Blanks, SpelledUnary, UnaryText, UnaryMeant;
    var u := UnaryWritten(h, s);
    a, post := AndLoopWritten(h, OneU(u), ParseUnary(h, s).rest);
  }

  lemma {:induction false} AndLoopWritten(h: SidText, b: WrittenAnd, s: string) returns (a: WrittenAnd, post: string)
    requires SpelledAnd(h, b) && AndLoop(h, AndMeant(b), s).Got?
    ensures var r := AndLoop(h, AndMeant(b), s);
      && SpelledAnd(h, a) && Blanks(post) && AndMeant(a) == r.v && AndText(b) + s == AndText(a) + (post + r.rest)
    decreases |s|, 5
  {
    hide ParseUnary, Blanks, SpelledUnary, UnaryText, UnaryMeant;
    var t := SkipWs(s);
    var mid := Skipped(s);
    if Starts(t, "&&") {
      UnarySkips(h, t[2..]);
      var u := UnaryWritten(h, t[2..]);
      var more := ParseUnary(h, t[2..]).rest;
      a, post := AndLoopWritten(h, AndU(b, mid, u), more);
      assert t == "&&" + t[2..];
      ChainParts(AndText(b), mid, "&&", UnaryText(u), more);
    } else {
      a, post := b, mid;
    }
  }

  lemma {:induction false} ExprWritten(h: SidText, s: string) returns (e: WrittenExpr, post: string)
    requires ParseExpr(h, s).Got?
    ensures SpelledExpr(h, e) && Blanks(post) && ExprMeant(e) == ParseExpr(h, s).v
    ensures s == ExprText(e) + (post + ParseExpr(h, s).rest)
    decreases |s|, 4
  {
    hide ParseAnd, OrLoop, Blanks, SpelledAnd, AndText, AndMeant;
    var a, gap := AndWritten(h, s);
    var more := ParseAnd(h, s).rest;
    e, post := OrLoopWritten(h, OneA(a), gap, more);
  }

  lemma {:induction false} OrLoopWritten(h: SidText, f: WrittenExpr, gap: string, s: string) returns (e: WrittenExpr, post: string)
    requires SpelledExpr(h, f) && Blanks(gap) && OrLoop(h, ExprMeant(f), s).Got?
    ensures var r := OrLoop(h, ExprMeant(f), s);
      && SpelledExpr(h, e) && Blanks(post) && ExprMeant(e) == r.v && ExprText(f) + (gap + s) == ExprText(e) + (post + r.rest)
    decreases |s|, 5
  {
    hide ParseAnd, Blanks, SpelledAnd, AndText, AndMeant;
    var t := SkipWs(s);
    var gap2 := Skipped(s);
    BlanksJoin(gap, gap2);
    var mid := gap + gap2;
    assert gap + s == mid + t;
    if Starts(t, "||") {
      AndSkips(h, t[2..]);
      var a, gap3 := AndWritten(h, t[2..]);
      var more := ParseAnd(h, t[2..]).rest;
      e, post := OrLoopWritten(h, OrA(f, mid, a), gap3, more);
      assert t == "||" + t[2..];
      ChainParts(ExprText(f), mid, "||", AndText(a), gap3 + more);
    } else {
      e, post := f, mid;
    }
  }

  // ---- around the expression ----

  /** The white space of Unicode, code point by code point. */
  predicate White(c: char) {
    c as int in {0x09, 0x0a, 0x0b, 0x0c, 0x0d, 0x20, 0x85, 0xa0, 0x1680, 0x2000, 0x2001, 0x2002, 0x2003, 0x2004, 0x2005,
                 0x2006, 0x2007, 0x2008, 0x2009, 0x200a, 0x2028, 0x2029, 0x202f, 0x205f, 0x3000}
  }

  predicate AllWhite(s: string) {
    forall i :: 0 <= i < |s| ==> White(s[i])
  }

  predicate Bare(s: string) {
    s == "" || (!White(s[0]) && !White(s[|s| - 1]))
  }

  lemma WhiteIs(c: char)
    ensures WhiteSpace(c) <==> White(c)
  {
  }

  lemma TrimHead(c: char, t: string)
    requires White(c)
    ensures Trim([c] + t) == Trim(t)
  {
    WhiteIs(c);
    assert ([c] + t)[1..] == t;
  }

  lemma TrimLast(t: string, c: char)
    requires t != "" && !White(t[0]) && White(c)
    ensures Trim(t + [c]) == Trim(t)
  {
    WhiteIs(c);
    WhiteIs(t[0]);
    assert (t + [c])[..|t|] == t;
  }

  lemma TrimBare(s: string)
    requires Bare(s)
    ensures Trim(s) == s
  {
    if s != "" {
      WhiteIs(s[0]);
      WhiteIs(s[|s| - 1]);
    }
  }

  lemma {:induction false} TrimFront(a: string, t: string)
    requires AllWhite(a)
    ensures Trim(a + t) == Trim(t)
    decreases |a|
  {
    hide White, Trim;
    if a == "" {
      assert a + t == t;
    } else {
      assert a + t == [a[0]] + (a[1..] + t);
      TrimHead(a[0], a[1..] + t);
      TrimFront(a[1..], t);
    }
  }

  lemma {:induction false} TrimBack(s: string, b: string)
    requires AllWhite(b) && s != "" && !White(s[0])
    ensures Trim(s + b) == Trim(s)
    decreases |b|
  {
    hide White, Trim;
    if b == "" {
      assert s + b == s;
    } else {
      var n := |b| - 1;
      assert s + b == (s + b[..n]) + [b[n]];
      TrimLast(s + b[..n], b[n]);
      TrimBack(s, b[..n]);
    }
  }

  lemma Trims(a: string, s: string, b: string)
    requires AllWhite(a) && AllWhite(b) && Bare(s)
    ensures Trim(a + s + b) == s
  {
    hide White, Trim, AllWhite;
    assert a + s + b == a + (s + b);
    TrimFront(a, s + b);
    TrimBare(s);
    if s == "" {
      assert s + b == b + "";
      TrimFront(b, "");
    } else {
      TrimBack(s, b);
    }
  }

  lemma {:induction false} Trimmed(t: string) returns (a: string, b: string)
    ensures AllWhite(a) && AllWhite(b) && Bare(Trim(t)) && t == a + Trim(t) + b
    decreases |t|
  {
    hide White, Trim;
    var n := |t| - 1;
    if t != "" && White(t[0]) {
      var x, y := Trimmed(t[1..]);
      assert t == [t[0]] + t[1..];
      TrimHead(t[0], t[1..]);
      a, b := [t[0]] + x, y;
      LongerFront(t[0], x, Trim(t), y);
    } else if t != "" && White(t[n]) {
      var x, y := Trimmed(t[..n]);
      assert t == t[..n] + [t[n]];
      TrimLast(t[..n], t[n]);
      a, b := x, y + [t[n]];
      LongerBack(x, Trim(t), y, t[n]);
    } else {
      TrimBare(t);
      a, b := "", "";
    }
  }

  lemma LongerFront(c: char, a: string, s: string, b: string)
    ensures [c] + (a + s + b) == ([c] + a) + s + b
  {
  }

  lemma LongerBack(a: string, s: string, b: string, c: char)
    ensures (a + s + b) + [c] == a + s + (b + [c])
  {
  }

  /** Trimming takes off all the white space there is at both ends, and nothing else. */
  lemma TrimExact(t: string, s: string)
    ensures Trim(t) == s <==> exists a: string, b: string :: AllWhite(a) && AllWhite(b) && Bare(s) && t == a + s + b
  {
    hide Trim, AllWhite, Bare;
    var a0, b0 := Trimmed(t);
    if exists a: string, b: string :: AllWhite(a) && AllWhite(b) && Bare(s) && t == a + s + b {
      var a, b :| AllWhite(a) && AllWhite(b) && Bare(s) && t == a + s + b;
      Trims(a, s, b);
    }
  }

  /** Opening parentheses less closing ones, quoted or not. */
  function Open(s: string): int {
    if s == "" then 0
    else (if s[0] == '(' then 1 else if s[0] == ')' then -1 else 0) + Open(s[1..])
  }

  /** Every prefix of `s` short of the whole keeps a count that starts at `depth` above zero. */
  predicate StaysOpen(s: string, depth: int) {
    forall k :: 0 <= k < |s| ==> depth + Open(s[..k]) >= 1
  }

  lemma OpenStep(s: string, depth: int)
    requires s != ""
    ensures StaysOpen(s, depth) <==> depth >= 1 && StaysOpen(s[1..], depth + Open(s[..1]))
  {
    var tail, d := s[1..], Open(s[..1]);
    assert s[..1][1..] == "" && s[..0] == "";
    if StaysOpen(s, depth) {
      assert depth + Open(s[..0]) >= 1;
      forall k | 0 <= k < |tail| ensures depth + d + Open(tail[..k]) >= 1 {
        assert s[..k + 1][1..] == tail[..k];
        assert depth + Open(s[..k + 1]) >= 1;
      }
    } else if depth >= 1 && StaysOpen(tail, depth + d) {
      forall k | 0 <= k < |s| ensures depth + Open(s[..k]) >= 1 {
        if k > 0 {
          assert s[..k][1..] == tail[..k - 1];
          assert depth + d + Open(tail[..k - 1]) >= 1;
        }
      }
    }
  }

  lemma {:induction false} ClosesExactly(s: string, depth: int)
    requires depth >= 1
    ensures ClosesEarly(s, depth) <==> !StaysOpen(s, depth)
    decreases |s|
  {
    hide StaysOpen;
    if s == "" {
      assert StaysOpen(s, depth) by { NothingOpen(depth); }
    } else {
      OpenStep(s, depth);
      var d := Open(s[..1]);
      assert s[..1][1..] == "";
      if depth + d >= 1 {
        ClosesExactly(s[1..], depth + d);
      } else if |s| > 1 {
        OpenStep(s[1..], depth + d);
      } else {
        NothingOpen(depth + d);
        assert s[1..] == "";
      }
    }
  }

  lemma NothingOpen(depth: int)
    ensures StaysOpen("", depth)
  {
  }

  /**
   * An outer pair is taken off exactly when every prefix short of the whole text, past its first
   * parenthesis, has more opening parentheses than closing ones.
   */
  lemma StripsExactly(s: string)
    ensures Strips(s) <==> |s| >= 2 && s[0] == '(' && s[|s| - 1] == ')' && StaysOpen(s[1..], 1)
  {
    hide StaysOpen;
    if |s| >= 2 && s[0] == '(' {
      ClosesExactly(s[1..], 1);
    }
  }

  // ---- the parser decides the grammar ----

  /** The text spells the condition `c`: an expression that means it, and blanks. */
  ghost predicate SpellsCond(h: SidText, text: string, c: Cond) {
    exists e: WrittenExpr, tail: string ::
      SpelledExpr(h, e) && Blanks(tail) && text == ExprText(e) + tail && ExprMeant(e) == c
  }

  lemma SpelledParses(h: SidText, e: WrittenExpr, tail: string)
    requires SpelledExpr(h, e) && Blanks(tail)
    ensures ParseExpr(h, ExprText(e) + tail) == Got(ExprMeant(e), "")
  {
    hide ParseExpr, ParseAnd, SpelledExpr, ExprText, ExprMeant;
    SkipBlanks(tail, "");
    assert tail + "" == tail;
    assert Breaks(tail);
    ExprReads(h, e, tail);
  }

  /** Between blanks, what parses is exactly what is spelled. */
  lemma ParsesExactly(h: SidText, text: string, c: Cond)
    ensures SpellsCond(h, text, c) <==> ParseExpr(h, text).Got? && ParseExpr(h, text).v == c && SkipWs(ParseExpr(h, text).rest) == ""
  {
    hide ParseExpr, SpelledExpr, ExprText, ExprMeant, Blanks;
    if ParseExpr(h, text).Got? && ParseExpr(h, text).v == c && SkipWs(ParseExpr(h, text).rest) == "" {
      var e, post := ExprWritten(h, text);
      var rest := ParseExpr(h, text).rest;
      var more := Skipped(rest);
      assert rest == more;
      BlanksJoin(post, more);
      assert text == ExprText(e) + (post + more);
    }
    if SpellsCond(h, text, c) {
      var e, tail :| SpelledExpr(h, e) && Blanks(tail) && text == ExprText(e) + tail && ExprMeant(e) == c;
      SpelledParses(h, e, tail);
    }
  }

  /**
   * The parser decides the grammar: a text parses to `c` exactly when, with the white space around it
   * and an outer pair of parentheses taken off, it spells `c`.
   */
  lemma GrammarExact(h: SidText, text: string, c: Cond)
    ensures ParseText(h, text) == Some(c) <==> SpellsCond(h, StripOuter(Trim(text)), c)
  {
    hide ParseExpr, StripOuter, Trim, SpellsCond;
    ParsesExactly(h, StripOuter(Trim(text)), c);
  }
}
