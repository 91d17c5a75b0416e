/** The text parser as it runs: one source string and a position that its methods advance. */
module CondParser {
  import opened Bytes
  import opened SidWire
  import opened Condition
  import opened CondText
  import opened CondParse

  /** The scan for an outer pair of parentheses that holds the whole text. */
  method StripOuterParens(s: string) returns (r: string)
    ensures r == StripOuter(s)
  {
    if |s| < 2 || s[0] != '(' || s[|s| - 1] != ')' {
      return s;
    }
    var depth, i := 0, 0;
    while i < |s|
      invariant i <= |s|
      invariant ClosesEarly(s, 0) == ClosesEarly(s[i..], depth)
    {
      assert s[i..][1..] == s[i + 1..];
      if s[i] == '(' {
        depth := depth + 1;
      } else if s[i] == ')' {
        depth := depth - 1;
        if depth == 0 && i != |s| - 1 {
          return s;
        }
      }
      i := i + 1;
    }
    return s[1..|s| - 1];
  }

  /** The loop over hex digit pairs in `parse_octet_lit`. */
  method HexBytes(hex: string) returns (out: seq<byte>)
    requires |hex| % 2 == 0 && forall i :: 0 <= i < |hex| ==> HexDigit(hex[i])
    ensures out == FromHex(hex)
  {
    hide FromHex;
    out := [];
    var i := 0;
    while i < |hex|
      invariant i <= |hex| && i % 2 == 0
      invariant out + FromHex(hex[i..]) == FromHex(hex)
    {
      HexStep(hex, i, out);
      out := out + [16 * HexVal(hex[i]) + HexVal(hex[i + 1])];
      i := i + 2;
    }
    assert hex[i..] == "";
    NoHex();
  }

  lemma NoHex()
    ensures FromHex("") == []
  {
  }

  lemma HexStep(hex: string, i: nat, out: seq<byte>)
    requires i + 2 <= |hex| && (|hex| - i) % 2 == 0 && forall k :: 0 <= k < |hex| ==> HexDigit(hex[k])
    ensures out + FromHex(hex[i..]) == out + [16 * HexVal(hex[i]) + HexVal(hex[i + 1])] + FromHex(hex[i + 2..])
  {
    hide HexVal, FromHex, HexDigit;
    HexFront(hex[i..]);
    assert hex[i..][2..] == hex[i + 2..];
  }

  lemma SpanStep(src: string, at: nat, p: char -> bool)
    requires at < |src| && p(src[at])
    ensures Span(src[at..], p) == 1 + Span(src[at + 1..], p)
  {
    assert src[at..][1..] == src[at + 1..];
  }

  lemma AndLoopIs(h: SidText, lhs: Cond, s: string)
    ensures var t := SkipWs(s);
      AndLoop(h, lhs, s) ==
      if !Starts(t, "&&") then Got(lhs, t)
      else
        var u := ParseUnary(h, SkipWs(t[2..]));
        if u.Fail? then Fail else AndLoop(h, And(lhs, u.v), u.rest)
  {
    hide ParseUnary;
  }

  lemma OrLoopIs(h: SidText, lhs: Cond, s: string)
    ensures var t := SkipWs(s);
      OrLoop(h, lhs, s) ==
      if !Starts(t, "||") then Got(lhs, t)
      else
        var u := ParseAnd(h, SkipWs(t[2..]));
        if u.Fail? then Fail else OrLoop(h, Or(lhs, u.v), u.rest)
  {
    hide ParseAnd;
  }

  lemma SpanStop(s: string, p: char -> bool)
    requires s == "" || !p(s[0])
    ensures Span(s, p) == 0
  {
  }

  lemma CiLength(t: string)
    requires StartsCi(t, "SID(")
    ensures |t| >= 4
  {
  }

  lemma StartsLength(t: string)
    requires Starts(t, "0x") || Starts(t, "0X")
    ensures |t| >= 2
  {
  }

  lemma HexFront(s: string)
    requires s != "" && |s| % 2 == 0 && forall i :: 0 <= i < |s| ==> HexDigit(s[i])
    ensures FromHex(s) == [16 * HexVal(s[0]) + HexVal(s[1])] + FromHex(s[2..])
  {
  }

  class Parser {
    const src: string
    const sids: SidText
    var pos: nat

    ghost predicate Valid()
      reads this
    {
      pos <= |src|
    }

    function Rest(): string
      requires Valid()
      reads this
    {
      src[pos..]
    }

    /** `r` is what `got` gives, and on success the position is where `got` stops. */
    ghost predicate Follows<T(!new)>(r: Option<T>, got: Got<T>)
      reads this
    {
      Valid() && match got case Fail => r == None case Got(v, rest) => r == Some(v) && Rest() == rest
    }

    constructor (s: string, h: SidText)
      ensures Valid() && src == s && sids == h && Rest() == s
    {
      src, sids, pos := s, h, 0;
    }

    method SkipSpace()
      requires Valid()
      modifies this
      ensures Valid() && Rest() == SkipWs(old(Rest())) && pos >= old(pos)
    {
      while pos < |src| && Space(src[pos])
        invariant Valid() && pos >= old(pos)
        invariant SkipWs(Rest()) == SkipWs(old(Rest()))
      {
        assert Rest()[1..] == src[pos + 1..];
        pos := pos + 1;
      }
      NoSkip(Rest());
    }

    method StartsWithCi(t: string) returns (ok: bool)
      requires Valid()
      ensures ok == StartsCi(Rest(), t)
    {
      var r := src[pos..];
      if |r| < |t| {
        return false;
      }
      var i := 0;
      while i < |t|
        invariant i <= |t|
        invariant forall k :: 0 <= k < i ==> Lower(r[k]) == Lower(t[k])
      {
        if Lower(r[i]) != Lower(t[i]) {
          return false;
        }
        i := i + 1;
      }
      return true;
    }

    method Eat(t: string) returns (ok: bool)
      requires Valid()
      modifies this
      ensures Valid() && ok == Starts(old(Rest()), t)
      ensures Rest() == if ok then old(Rest())[|t|..] else old(Rest())
      ensures pos == if ok then old(pos) + |t| else old(pos)
    {
      ok := t <= src[pos..];
      if ok {
        assert Rest()[|t|..] == src[pos + |t|..];
        pos := pos + |t|;
      }
    }

    method TryKeyword(kw: string) returns (ok: bool)
      requires Valid()
      modifies this
      ensures Valid() && ok == Keyword(old(Rest()), kw)
      ensures Rest() == if ok then old(Rest())[|kw|..] else old(Rest())
      ensures pos == if ok then old(pos) + |kw| else old(pos)
    {
      ok := StartsWithCi(kw);
      if ok {
        assert pos + |kw| < |src| ==> src[pos + |kw|] == Rest()[|kw|];
        if pos + |kw| < |src| && IdentChar(src[pos + |kw|]) {
          return false;
        }
        assert Rest()[|kw|..] == src[pos + |kw|..];
        pos := pos + |kw|;
      }
    }

    /** The scanning loops over digits, hex digits, name characters and quoted text. */
    method TakeWhile(p: char -> bool) returns (lit: string)
      requires Valid()
      modifies this
      ensures Valid()
      ensures var n := Span(old(Rest()), p); lit == old(Rest())[..n] && Rest() == old(Rest())[n..] && pos == old(pos) + n
    {
      hide Span;
      var start := pos;
      ghost var all := Rest();
      while pos < |src| && p(src[pos])
        invariant Valid() && start <= pos
        invariant Span(all, p) == (pos - start) + Span(Rest(), p)
      {
        SpanStep(src, pos, p);
        pos := pos + 1;
      }
      SpanStop(Rest(), p);
      lit := src[start..pos];
      assert lit == all[..pos - start] && Rest() == all[pos - start..];
    }

    method ParseStringLit() returns (r: Option<string>)
      requires Valid() && Rest() != ""
      modifies this
      ensures Follows(r, ReadString(old(Rest())))
    {
      ghost var all := Rest();
      pos := pos + 1;
      assert Rest() == all[1..];
      var lit := TakeWhile(NotQuote);
      if pos >= |src| {
        return None;
      }
      pos := pos + 1;
      assert lit == all[1..1 + |lit|] && Rest() == all[2 + |lit|..];
      return Some(lit);
    }

    method ParseOctetLit() returns (r: Option<seq<byte>>)
      requires Valid() && Rest() != ""
      modifies this
      ensures Follows(r, ReadOctet(old(Rest())))
    {
      ghost var all := Rest();
      pos := pos + 1;
      assert Rest() == all[1..];
      var hex := TakeWhile(HexDigit);
      if hex == "" || |hex| % 2 != 0 {
        return None;
      }
      assert hex == all[1..1 + |hex|] && Rest() == all[1 + |hex|..];
      var out := HexBytes(hex);
      return Some(out);
    }

    method ParseIntLit() returns (r: Option<int>)
      requires Valid() && Rest() != ""
      modifies this
      ensures Follows(r, ReadInt(old(Rest())))
    {
      hide ReadMagnitude;
      ghost var all := Rest();
      var negative := src[pos] == '-';
      if negative {
        pos := pos + 1;
        assert Rest() == all[1..];
      }
      var m := ParseMagnitude();
      if m == None {
        return None;
      }
      return SignedVal(negative, m.value);
    }

    method ParseMagnitude() returns (r: Option<nat>)
      requires Valid()
      modifies this
      ensures Follows(r, ReadMagnitude(old(Rest())))
    {
      hide Starts, HexNat, DecimalVal;
      ghost var t := Rest();
      var hex := Starts(src[pos..], "0x") || Starts(src[pos..], "0X");
      if hex {
        StartsLength(t);
        pos := pos + 2;
        assert Rest() == t[2..];
        var lit := TakeWhile(HexDigit);
        if lit == "" {
          return None;
        }
        assert lit == t[2..2 + |lit|] && Rest() == t[2 + |lit|..];
        return Some(HexNat(lit));
      } else {
        var lit := TakeWhile(Digit);
        if lit == "" {
          return None;
        }
        return Some(DecimalVal(lit));
      }
    }

    method ParseAttrRef() returns (r: Option<Operand>)
      requires Valid() && Rest() != ""
      modifies this
      ensures Follows(r, ReadAttr(old(Rest())))
    {
      ghost var all := Rest();
      pos := pos + 1;
      assert Rest() == all[1..];
      var table := [Local, User, Resource, Device];
      var i := 0;
      while i < 4
        invariant i <= 4 && pos == old(pos) + 1
        invariant forall k :: 0 <= k < i ==> !StartsCi(Rest(), ScopeName(table[k]))
      {
        var here := StartsWithCi(ScopeName(table[i]));
        if here {
          ScopeFirst(Rest(), i);
          r := AfterScope(table[i]);
          return;
        }
        i := i + 1;
      }
      NoScope(Rest());
      return None;
    }

    method AfterScope(scope: Scope) returns (r: Option<Operand>)
      requires Valid() && 0 < pos && ScopeOf(Rest()) == Some(scope) && |ScopeName(scope)| <= |Rest()|
      modifies this
      ensures Follows(r, ReadAttr(old(src[pos - 1..])))
    {
      hide ScopeOf, ScopeName, Span;
      ghost var all, n := src[pos - 1..], 1 + |ScopeName(scope)|;
      assert all[1..] == Rest();
      pos := pos + |ScopeName(scope)|;
      assert Rest() == all[n..];
      var dot := Eat(".");
      if !dot {
        return None;
      }
      assert all[n] == '.' && Rest() == all[n..][1..] == all[n + 1..];
      var name := TakeWhile(IdentChar);
      return if name == "" then None else Some(Attr(scope, name));
    }

    method ParseSid() returns (r: Option<Operand>)
      requires Valid()
      modifies this
      ensures Follows(r, ReadSid(sids, old(Rest())))
    {
      hide Span, StartsCi;
      ghost var all := Rest();
      var here := StartsWithCi("SID(");
      if !here {
        return None;
      }
      CiLength(all);
      pos := pos + 4;
      assert Rest() == all[4..];
      var lit := TakeWhile(NotClose);
      assert lit == all[4..4 + |lit|] && Rest() == all[4 + |lit|..];
      var close := Eat(")");
      if !close {
        return None;
      }
      assert Rest() == all[5 + |lit|..];
      var sid := sids.read(lit);
      return if sid.Some? then Some(SidLit(sid.value)) else None;
    }

    method ParseOperand() returns (r: Option<Operand>)
      requires Valid()
      modifies this
      ensures Follows(r, ReadOperand(sids, old(Rest())))
      decreases |src| - pos, 0
    {
      hide ReadString, ReadOctet, ReadInt, ReadAttr, ReadSid, ReadItems;
      SkipSpace();
      if pos >= |src| {
        return None;
      }
      var c := src[pos];
      if c == '"' {
        var v := ParseStringLit();
        return if v.Some? then Some(Str(v.value)) else None;
      } else if c == '#' {
        var v := ParseOctetLit();
        return if v.Some? then Some(Octet(v.value)) else None;
      } else if c == '{' {
        ghost var all := Rest();
        pos := pos + 1;
        assert Rest() == all[1..];
        var v := ParseComposite();
        return if v.Some? then Some(Composite(v.value)) else None;
      } else if c == '-' || Digit(c) {
        var v := ParseIntLit();
        return if v.Some? then Some(Int(v.value)) else None;
      } else if c == '@' {
        r := ParseAttrRef();
      } else if c == 'S' || c == 's' {
        r := ParseSid();
      } else {
        return None;
      }
    }

    /** After the opening brace. */
    method ParseComposite() returns (r: Option<seq<Operand>>)
      requires Valid()
      modifies this
      ensures Follows(r, ReadItems(sids, old(Rest())))
      decreases |src| - pos, 1
    {
      hide ReadOperand;
      ghost var all := ReadItems(sids, Rest());
      var items := [];
      NothingRead(all);
      while true
        invariant Valid() && pos >= old(pos)
        invariant Continues(all, items, ReadItems(sids, Rest()))
        decreases |src| - pos
      {
        SkipSpace();
        NoSkip(Rest());
        var close := Eat("}");
        if close {
          assert items + [] == items;
          return Some(items);
        }
        var o := ParseOperand();
        if o == None {
          return None;
        }
        SkipSpace();
        var comma := Eat(",");
        if !comma {
          close := Eat("}");
          return if close then Some(items + [o.value]) else None;
        }
        OneMore(all, items, o.value, ReadItems(sids, Rest()));
        items := items + [o.value];
      }
    }

    method ParseCompareOp() returns (r: Option<CompareOp>)
      requires Valid()
      modifies this
      ensures Follows(r, ReadCompareOp(old(Rest())))
    {
      hide CompareText, Keyword;
      var i := 0;
      while i < |COMPARE_SYMBOLS|
        invariant i <= |COMPARE_SYMBOLS| && pos == old(pos)
        invariant FirstSymbol(Rest(), COMPARE_SYMBOLS) == FirstSymbol(Rest(), COMPARE_SYMBOLS[i..])
      {
        assert COMPARE_SYMBOLS[i..][1..] == COMPARE_SYMBOLS[i + 1..];
        var here := Eat(CompareText(COMPARE_SYMBOLS[i]));
        if here {
          return Some(COMPARE_SYMBOLS[i]);
        }
        i := i + 1;
      }
      i := 0;
      while i < |COMPARE_WORDS|
        invariant i <= |COMPARE_WORDS| && pos == old(pos)
        invariant FirstWord(Rest(), COMPARE_WORDS) == FirstWord(Rest(), COMPARE_WORDS[i..])
      {
        assert COMPARE_WORDS[i..][1..] == COMPARE_WORDS[i + 1..];
        var here := TryKeyword(CompareText(COMPARE_WORDS[i]));
        if here {
          return Some(COMPARE_WORDS[i]);
        }
        i := i + 1;
      }
      return None;
    }

    method ParseTests() returns (r: Option<Cond>)
      requires Valid()
      modifies this
      ensures Follows(r, ParseTest(sids, old(Rest())))
    {
      hide ReadOperand, Keyword, FirstMember, ParseComparison;
      ghost var all := Rest();
      var here := TryKeyword("Exists");
      if here {
        var o := ParseOperand();
        return if o.Some? then Some(Exists(o.value)) else None;
      }
      here := TryKeyword("Not_Exists");
      if here {
        var o := ParseOperand();
        return if o.Some? then Some(NotExists(o.value)) else None;
      }
      var op := MemberKeyword();
      if op.Some? {
        var o := ParseOperand();
        return if o.Some? then Some(Member(op.value, o.value)) else None;
      }
      r := ParseRelation();
    }

    method MemberKeyword() returns (r: Option<MemberOp>)
      requires Valid()
      modifies this
      ensures Valid() && r == FirstMember(old(Rest()), MEMBER_OPS)
      ensures Rest() == if r.Some? then old(Rest())[|MemberText(r.value)|..] else old(Rest())
      ensures pos >= old(pos)
    {
      hide MemberText, Keyword;
      var i := 0;
      while i < |MEMBER_OPS|
        invariant i <= |MEMBER_OPS| && pos == old(pos)
        invariant FirstMember(Rest(), MEMBER_OPS) == FirstMember(Rest(), MEMBER_OPS[i..])
      {
        assert MEMBER_OPS[i..][1..] == MEMBER_OPS[i + 1..];
        var here := TryKeyword(MemberText(MEMBER_OPS[i]));
        if here {
          return Some(MEMBER_OPS[i]);
        }
        i := i + 1;
      }
      return None;
    }

    method ParseRelation() returns (r: Option<Cond>)
      requires Valid()
      modifies this
      ensures Follows(r, ParseComparison(sids, old(Rest())))
    {
      hide ReadOperand, ReadCompareOp;
      var lhs := ParseOperand();
      if lhs == None {
        return None;
      }
      SkipSpace();
      var op := ParseCompareOp();
      if op == None {
        return None;
      }
      var rhs := ParseOperand();
      return if rhs == None then None else Some(Compare(op.value, lhs.value, rhs.value));
    }

    method ParsePrimaryAt() returns (r: Option<Cond>)
      requires Valid()
      modifies this
      ensures Follows(r, ParsePrimary(sids, old(Rest())))
      decreases |src| - pos, 1
    {
      hide ParseExpr, ParseTest;
      SkipSpace();
      var open := Eat("(");
      if !open {
        r := ParseTests();
        return;
      }
      var e := ParseExprAt();
      if e == None {
        return None;
      }
      SkipSpace();
      var close := Eat(")");
      return if close then e else None;
    }

    method ParseUnaryAt() returns (r: Option<Cond>)
      requires Valid()
      modifies this
      ensures Follows(r, ParseUnary(sids, old(Rest())))
      decreases |src| - pos, 2
    {
      hide ParsePrimary;
      SkipSpace();
      var bang := Eat("!");
      if bang {
        SkipSpace();
        var inner := ParseUnaryAt();
        return if inner == None then None else Some(Not(inner.value));
      }
      r := ParsePrimaryAt();
    }

    method ParseAndAt() returns (r: Option<Cond>)
      requires Valid()
      modifies this
      ensures Follows(r, ParseAnd(sids, old(Rest())))
      decreases |src| - pos, 3
    {
      hide ParseUnary, AndLoop;
      ghost var result := ParseAnd(sids, Rest());
      var lhs := ParseUnaryAt();
      if lhs == None {
        return None;
      }
      while true
        invariant Valid() && pos > old(pos) && lhs.Some?
        invariant result == AndLoop(sids, lhs.value, Rest())
        decreases |src| - pos
      {
        AndLoopIs(sids, lhs.value, Rest());
        SkipSpace();
        var more := Eat("&&");
        if !more {
          return lhs;
        }
        SkipSpace();
        var rhs := ParseUnaryAt();
        if rhs == None {
          return None;
        }
        lhs := Some(And(lhs.value, rhs.value));
      }
    }

    method ParseExprAt() returns (r: Option<Cond>)
      requires Valid()
      modifies this
      ensures Follows(r, ParseExpr(sids, old(Rest())))
      decreases |src| - pos, 4
    {
      hide ParseAnd, OrLoop;
      ghost var result := ParseExpr(sids, Rest());
      var lhs := ParseAndAt();
      if lhs == None {
        return None;
      }
      while true
        invariant Valid() && pos > old(pos) && lhs.Some?
        invariant result == OrLoop(sids, lhs.value, Rest())
        decreases |src| - pos
      {
        OrLoopIs(sids, lhs.value, Rest());
        SkipSpace();
        var more := Eat("||");
        if !more {
          return lhs;
        }
        SkipSpace();
        var rhs := ParseAndAt();
        if rhs == None {
          return None;
        }
        lhs := Some(Or(lhs.value, rhs.value));
      }
    }
  }

  /** What is left of a composite, put after the items already read, is the whole composite. */
  ghost predicate Continues(all: Got<seq<Operand>>, items: seq<Operand>, more: Got<seq<Operand>>) {
    all == match more case Fail => Fail case Got(v, rest) => Got(items + v, rest)
  }

  lemma NothingRead(all: Got<seq<Operand>>)
    ensures Continues(all, [], all)
  {
    assert all.Got? ==> [] + all.v == all.v;
  }

  lemma OneMore(all: Got<seq<Operand>>, items: seq<Operand>, o: Operand, more: Got<seq<Operand>>)
    requires Continues(all, items, match more case Fail => Fail case Got(v, rest) => Got([o] + v, rest))
    ensures Continues(all, items + [o], more)
  {
    assert more.Got? ==> items + ([o] + more.v) == items + [o] + more.v;
  }

  lemma ScopeFirst(s: string, i: nat)
    requires i < 4 && var table := [Local, User, Resource, Device];
      StartsCi(s, ScopeName(table[i])) && forall k :: 0 <= k < i ==> !StartsCi(s, ScopeName(table[k]))
    ensures ScopeOf(s) == Some([Local, User, Resource, Device][i])
  {
    hide StartsCi;
    var table := [Local, User, Resource, Device];
    assert table[0] == Local && (i > 1 ==> table[1] == User) && (i > 2 ==> table[2] == Resource);
  }

  lemma NoScope(s: string)
    requires var table := [Local, User, Resource, Device];
      forall k :: 0 <= k < 4 ==> !StartsCi(s, ScopeName(table[k]))
    ensures ScopeOf(s) == None
  {
    hide StartsCi;
    var table := [Local, User, Resource, Device];
    assert table[0] == Local && table[1] == User && table[2] == Resource && table[3] == Device;
  }

  /** `parse`. */
  method Parse(text: string, h: SidText) returns (r: Option<Cond>)
    ensures r == ParseText(h, text)
  {
    var s := StripOuterParens(Trim(text));
    var p := new Parser(s, h);
    var c := p.ParseExprAt();
    if c == None {
      return None;
    }
    p.SkipSpace();
    return if p.pos < |p.src| then None else c;
  }
}
