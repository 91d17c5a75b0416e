/**
 * How operands may be written: a declarative grammar of their spellings, with any blanks, casing,
 * base, leading zeros and trailing comma, and the proof that the parser reads exactly these. The
 * characters are written out here once more, independently of the parser's own tests.
 */
module CondSpelling {
  import opened Bytes
  import opened SidWire
  import opened Condition
  import opened CondText

  // ---- characters ----

  predicate Blanks(s: string) {
    forall i :: 0 <= i < |s| ==> s[i] in " \t\n\r"
  }

  /** The character stands for the value `v`, in either case. */
  predicate DigitIs(c: char, v: nat) {
    v < 16 && (c == "0123456789abcdef"[v] || c == "0123456789ABCDEF"[v])
  }

  predicate LetterOrDigit(c: char) {
    0x61 <= c as int <= 0x7a || 0x41 <= c as int <= 0x5a || 0x30 <= c as int <= 0x39
  }

  /** What a name is made of, and a keyword does not run on into. */
  predicate NameChar(c: char) {
    LetterOrDigit(c) || c in "_:."
  }

  predicate SameLetter(a: char, b: char) {
    || a == b
    || (0x41 <= a as int <= 0x5a && b as int == a as int + 0x20)
    || (0x41 <= b as int <= 0x5a && a as int == b as int + 0x20)
  }

  /** `w` is `kw` in any mixture of cases. */
  predicate Cased(w: string, kw: string) {
    |w| == |kw| && forall i :: 0 <= i < |w| ==> SameLetter(w[i], kw[i])
  }

  // ---- numbers ----

  /** `s` is `m` in base `b`, the last digit being its remainder; leading zeros and both cases are allowed. */
  predicate Spells(s: string, b: nat, m: nat)
    requires b > 0
  {
    && s != ""
    && m % b < 16 && DigitIs(s[|s| - 1], m % b)
    && if |s| == 1 then m < b else Spells(s[..|s| - 1], b, m / b)
  }

  /** The shortest spelling of `m`. */
  function Shortest(m: nat, b: nat, upper: bool): (s: string)
    requires 2 <= b <= 16
    ensures s != ""
  {
    ModSmall(m, b);
    var last := [DigitOf(m % b, upper)];
    if m < b then last else Shortest(m / b, b, upper) + last
  }

  function DigitOf(d: nat, upper: bool): char
    requires d < 16
  {
    if upper then "0123456789ABCDEF"[d] else "0123456789abcdef"[d]
  }

  lemma ShortestDigit(d: nat, upper: bool)
    requires d < 16
    ensures DigitIs(DigitOf(d, upper), d)
  {
  }

  lemma ModSmall(m: nat, b: nat)
    requires 2 <= b <= 16
    ensures 0 <= m % b < 16 && (m >= b ==> m / b < m)
  {
  }

  /** Every number has a spelling in either case, and a leading zero makes another. */
  lemma {:induction false} ShortestSpells(m: nat, b: nat, upper: bool)
    requires 2 <= b <= 16
    ensures Spells(Shortest(m, b, upper), b, m)
  {
    hide DigitIs;
    var s := Shortest(m, b, upper);
    ModSmall(m, b);
    ShortestDigit(m % b, upper);
    if m >= b {
      ShortestSpells(m / b, b, upper);
      assert s[..|s| - 1] == Shortest(m / b, b, upper);
    }
  }

  lemma {:induction false} LeadingZero(s: string, b: nat, m: nat)
    requires b > 0 && Spells(s, b, m)
    ensures Spells("0" + s, b, m)
  {
    var z := "0" + s;
    var n := |s| - 1;
    if n == 0 {
      assert z[..1] == "0";
      assert DigitIs('0', 0);
      SmallQuotient(m, b);
      assert Spells("0", b, 0);
    } else {
      LeadingZero(s[..n], b, m / b);
      assert z[..n + 1] == "0" + s[..n];
    }
  }

  lemma SmallQuotient(m: nat, b: nat)
    requires m < b
    ensures m / b == 0 && 0 % b == 0
  {
  }

  /** Two digits for each byte, the high half first. */
  predicate SpellsBytes(s: string, data: seq<byte>) {
    if data == [] then s == ""
    else |s| >= 2 && DigitIs(s[0], data[0] / 16) && DigitIs(s[1], data[0] % 16) && SpellsBytes(s[2..], data[1..])
  }

  // ---- operands as they are written ----

  datatype Written =
    | IntW(negative: bool, prefix: string, digits: string, m: nat)
    | StrW(t: string)
    | SidW(word: string, body: string, sid: Sid)
    | OctetW(digits: string, data: seq<byte>)
    | CompositeW(items: WrittenItems)
    | AttrW(word: string, scope: Scope, name: string)

  /** The inside of a composite: `}`, or a last item and `}`, or an item, a comma and more. */
  datatype WrittenItems =
    | Close(pre: string)
    | Last(pre: string, w: Written, post: string)
    | More(pre: string, w: Written, post: string, rest: WrittenItems)

  function Text(w: Written): string {
    match w
    case IntW(negative, prefix, digits, _) => (if negative then "-" else "") + (prefix + digits)
    case StrW(t) => "\"" + (t + "\"")
    case SidW(word, body, _) => word + (body + ")")
    case OctetW(digits, _) => "#" + digits
    case CompositeW(items) => "{" + ItemsText(items)
    case AttrW(word, _, name) => "@" + (word + ("." + name))
  }

  function ItemsText(l: WrittenItems): string {
    match l
    case Close(pre) => pre + "}"
    case Last(pre, w, post) => pre + (Text(w) + (post + "}"))
    case More(pre, w, post, rest) => pre + (Text(w) + (post + ("," + ItemsText(rest))))
  }

  function Meant(w: Written): Operand {
    match w
    case IntW(negative, _, _, m) => Int(if negative then -(m as int) else m as int)
    case StrW(t) => Str(t)
    case SidW(_, _, sid) => SidLit(sid)
    case OctetW(_, data) => Octet(data)
    case CompositeW(items) => Composite(ItemsMeant(items))
    case AttrW(_, scope, name) => Attr(scope, name)
  }

  function ItemsMeant(l: WrittenItems): seq<Operand> {
    match l
    case Close(_) => []
    case Last(_, w, _) => [Meant(w)]
    case More(_, w, _, rest) => [Meant(w)] + ItemsMeant(rest)
  }

  function ScopeWord(s: Scope): string {
    match s
    case Local => "local" case User => "user" case Resource => "resource" case Device => "device"
  }

  predicate SpelledInt(prefix: string, digits: string, m: nat) {
    m <= 0x7fff_ffff_ffff_ffff && SpellsIn(prefix, digits, m)
  }

  /** Decimal, or hexadecimal after its prefix. */
  predicate SpellsIn(prefix: string, digits: string, m: nat) {
    if prefix == "" then Spells(digits, 10, m) else (prefix == "0x" || prefix == "0X") && Spells(digits, 16, m)
  }

  predicate Spelled(h: SidText, w: Written) {
    match w
    case IntW(_, prefix, digits, m) => SpelledInt(prefix, digits, m)
    case StrW(t) => '\"' !in t
    case SidW(word, body, sid) => Cased(word, "SID(") && ')' !in body && h.read(body) == Some(sid)
    case OctetW(digits, data) => data != [] && SpellsBytes(digits, data)
    case CompositeW(items) => SpelledItems(h, items)
    case AttrW(word, scope, name) =>
      Cased(word, ScopeWord(scope)) && name != "" && forall i :: 0 <= i < |name| ==> NameChar(name[i])
  }

  predicate SpelledItems(h: SidText, l: WrittenItems) {
    match l
    case Close(pre) => Blanks(pre)
    case Last(pre, w, post) => Blanks(pre) && Spelled(h, w) && Blanks(post)
    case More(pre, w, post, rest) => Blanks(pre) && Spelled(h, w) && Blanks(post) && SpelledItems(h, rest)
  }

  /** `rest` does not run on into the operand before it. */
  predicate Ends(w: Written, rest: string) {
    rest == "" || match w
      case IntW(_, prefix, digits, _) =>
        if prefix != "" then !IsHex(rest[0])
        else !(0x30 <= rest[0] as int <= 0x39) && (digits == "0" ==> rest[0] != 'x' && rest[0] != 'X')
      case OctetW(_, _) => !IsHex(rest[0])
      case AttrW(_, _, _) => !NameChar(rest[0])
      case _ => true
  }

  predicate IsHex(c: char) {
    0x30 <= c as int <= 0x39 || 0x41 <= c as int <= 0x46 || 0x61 <= c as int <= 0x66
  }

  /** What is no name character ends any operand. */
  predicate Breaks(rest: string) {
    rest == "" || !NameChar(rest[0])
  }

  lemma BreaksEnds(w: Written, rest: string)
    requires Breaks(rest)
    ensures Ends(w, rest)
  {
  }

  // ---- the parser's characters are these ----

  lemma BlankIs(c: char)
    ensures Space(c) <==> c in " \t\n\r"
  {
  }

  lemma NameCharIs(c: char)
    ensures IdentChar(c) <==> NameChar(c)
  {
  }

  lemma HexIs(c: char)
    ensures HexDigit(c) <==> IsHex(c)
  {
  }

  lemma DigitValue(c: char, v: nat)
    ensures DigitIs(c, v) <==> HexDigit(c) && HexVal(c) == v
    ensures v < 10 ==> (DigitIs(c, v) <==> Digit(c) && HexVal(c) == v)
  {
    if v < 10 {
      assert "0123456789abcdef"[v] as int == 0x30 + v && "0123456789ABCDEF"[v] as int == 0x30 + v;
    } else if v < 16 {
      assert "0123456789abcdef"[v] as int == 0x61 + (v - 10) && "0123456789ABCDEF"[v] as int == 0x41 + (v - 10);
    }
  }

  lemma SameLetterIs(a: char, b: char)
    ensures SameLetter(a, b) <==> Lower(a) == Lower(b)
  {
  }

  lemma StartsCased(w: string, kw: string, rest: string)
    requires |w| == |kw|
    ensures StartsCi(w + rest, kw) <==> Cased(w, kw)
  {
    hide SameLetter, Lower;
    var s := w + rest;
    assert forall i :: 0 <= i < |w| ==> s[i] == w[i];
    forall i | 0 <= i < |w| ensures SameLetter(w[i], kw[i]) <==> Lower(w[i]) == Lower(kw[i]) {
      SameLetterIs(w[i], kw[i]);
    }
  }

  // ---- blanks ----

  lemma {:induction false} SkipBlanks(pre: string, s: string)
    requires Blanks(pre) && (s == "" || !Space(s[0]))
    ensures SkipWs(pre + s) == s
    decreases |pre|
  {
    if pre == "" {
      assert pre + s == s;
    } else {
      BlankIs(pre[0]);
      assert (pre + s)[0] == pre[0] && (pre + s)[1..] == pre[1..] + s;
      SkipBlanks(pre[1..], s);
    }
  }

  lemma {:induction false} Skipped(s: string) returns (pre: string)
    ensures Blanks(pre) && s == pre + SkipWs(s)
  {
    if s != "" && Space(s[0]) {
      var p := Skipped(s[1..]);
      BlankIs(s[0]);
      pre := [s[0]] + p;
      assert s == [s[0]] + s[1..];
    } else {
      pre := "";
    }
  }

  // ---- numbers read ----

  lemma {:induction false} SpelledHex(s: string, m: nat)
    requires Spells(s, 16, m)
    ensures forall i :: 0 <= i < |s| ==> HexDigit(s[i])
    ensures HexNat(s) == m
  {
    hide DigitIs, HexVal;
    var n := |s| - 1;
    DigitValue(s[n], m % 16);
    if n > 0 {
      SpelledHex(s[..n], m / 16);
    } else {
      assert s[..0] == "";
    }
    assert forall i :: 0 <= i < n ==> s[i] == s[..n][i];
  }

  lemma {:induction false} SpelledDecimal(s: string, m: nat)
    requires Spells(s, 10, m)
    ensures forall i :: 0 <= i < |s| ==> Digit(s[i])
    ensures DecimalVal(s) == m
  {
    hide DigitIs, HexVal;
    var n := |s| - 1;
    DigitValue(s[n], m % 10);
    if n > 0 {
      SpelledDecimal(s[..n], m / 10);
    } else {
      assert s[..0] == "";
    }
    assert forall i :: 0 <= i < n ==> s[i] == s[..n][i];
  }

  lemma {:induction false} HexSpells(s: string)
    requires s != "" && forall i :: 0 <= i < |s| ==> HexDigit(s[i])
    ensures Spells(s, 16, HexNat(s))
  {
    hide DigitIs, HexVal;
    var n := |s| - 1;
    HexValSmall(s[n]);
    DigitValue(s[n], HexVal(s[n]));
    if n > 0 {
      HexSpells(s[..n]);
      ModuloUnique(HexNat(s), 16, HexNat(s[..n]), HexVal(s[n]));
    } else {
      assert s[..0] == "";
    }
  }

  lemma {:induction false} DecimalSpells(s: string)
    requires s != "" && forall i :: 0 <= i < |s| ==> Digit(s[i])
    ensures Spells(s, 10, DecimalVal(s))
  {
    hide DigitIs, HexVal;
    var n := |s| - 1;
    HexValSmall(s[n]);
    DigitValue(s[n], HexVal(s[n]));
    if n > 0 {
      DecimalSpells(s[..n]);
      ModuloUnique(DecimalVal(s), 10, DecimalVal(s[..n]), HexVal(s[n]));
    } else {
      assert s[..0] == "";
    }
  }

  lemma HexValSmall(c: char)
    requires HexDigit(c)
    ensures HexVal(c) < 16 && (Digit(c) ==> HexVal(c) < 10)
  {
  }

  lemma {:induction false} BytesSpelled(s: string, data: seq<byte>)
    requires SpellsBytes(s, data)
    ensures |s| == 2 * |data| && (forall i :: 0 <= i < |s| ==> HexDigit(s[i])) && FromHex(s) == data
  {
    hide DigitIs, HexVal;
    if data != [] {
      BytesSpelled(s[2..], data[1..]);
      DigitValue(s[0], data[0] / 16);
      DigitValue(s[1], data[0] % 16);
      assert forall i :: 2 <= i < |s| ==> s[i] == s[2..][i - 2];
      assert data == [data[0]] + data[1..];
    }
  }

  lemma {:induction false} HexSpellsBytes(s: string)
    requires |s| % 2 == 0 && forall i :: 0 <= i < |s| ==> HexDigit(s[i])
    ensures SpellsBytes(s, FromHex(s)) && (s != "" ==> FromHex(s) != [])
  {
    hide DigitIs, HexVal;
    if s != "" {
      HexSpellsBytes(s[2..]);
      HexValSmall(s[0]);
      HexValSmall(s[1]);
      DigitValue(s[0], HexVal(s[0]));
      DigitValue(s[1], HexVal(s[1]));
      var data := FromHex(s);
      assert data[1..] == FromHex(s[2..]);
      ModuloUnique(data[0], 16, HexVal(s[0]), HexVal(s[1]));
    }
  }

  // ---- every spelling is read as what it means ----

  lemma SpanStops(a: string, rest: string, p: char -> bool)
    requires (forall i :: 0 <= i < |a| ==> p(a[i])) && (rest == "" || !p(rest[0]))
    ensures Span(a + rest, p) == |a| && (a + rest)[..|a|] == a && (a + rest)[|a|..] == rest
  {
    SpanExact(a, rest, p);
  }

  lemma HexMagnitude(prefix: string, digits: string, m: nat, rest: string)
    requires (prefix == "0x" || prefix == "0X") && Spells(digits, 16, m) && (rest == "" || !IsHex(rest[0]))
    ensures ReadMagnitude(prefix + digits + rest) == Got(m, rest)
  {
    hide Spells, HexNat, HexDigit, IsHex;
    var t := prefix + digits + rest;
    SpelledHex(digits, m);
    if rest != "" {
      HexIs(rest[0]);
    }
    assert t[2..] == digits + rest;
    SpanStops(digits, rest, HexDigit);
    assert t[2..2 + |digits|] == digits && t[2 + |digits|..] == rest;
    assert digits != "" by { SpellsSomething(digits, 16, m); }
  }

  lemma SpellsSomething(s: string, b: nat, m: nat)
    requires b > 0 && Spells(s, b, m)
    ensures s != ""
  {
  }

  lemma DecimalMagnitude(digits: string, m: nat, rest: string)
    requires Spells(digits, 10, m) && Ends(IntW(false, "", digits, m), rest)
    ensures ReadMagnitude(digits + rest) == Got(m, rest)
  {
    hide Spells, DecimalVal, HexNat;
    var t := digits + rest;
    SpelledDecimal(digits, m);
    SpellsSomething(digits, 10, m);
    SpanStops(digits, rest, Digit);
    assert |t| >= 2 ==> t[1] == if |digits| > 1 then digits[1] else rest[0];
    assert t[0] == '0' && |digits| == 1 ==> digits == "0";
  }

  /** An integer in either base, signed or not; a magnitude past 63 bits is refused. */
  lemma IntReads(negative: bool, prefix: string, digits: string, m: nat, rest: string)
    requires SpellsIn(prefix, digits, m)
    requires Ends(IntW(negative, prefix, digits, m), rest)
    ensures ReadInt(Text(IntW(negative, prefix, digits, m)) + rest) ==
      if m <= 0x7fff_ffff_ffff_ffff then Got(if negative then -(m as int) else m as int, rest) else Fail
  {
    hide Spells, ReadMagnitude, Digit;
    var t := prefix + digits + rest;
    var s := Text(IntW(negative, prefix, digits, m)) + rest;
    if prefix == "" {
      DecimalMagnitude(digits, m, rest);
      assert t == digits + rest;
      SpelledDecimal(digits, m);
      SpellsSomething(digits, 10, m);
      NoMinus(digits[0]);
    } else {
      HexMagnitude(prefix, digits, m, rest);
    }
    assert t != "" && t[0] != '-';
    if negative {
      assert s == "-" + t;
      assert s[1..] == t;
    } else {
      assert s == t;
    }
  }

  lemma NoMinus(c: char)
    requires Digit(c)
    ensures c != '-'
  {
  }

  lemma OctetReads(digits: string, data: seq<byte>, rest: string)
    requires data != [] && SpellsBytes(digits, data) && (rest == "" || !IsHex(rest[0]))
    ensures ReadOctet("#" + digits + rest) == Got(data, rest)
  {
    hide SpellsBytes, FromHex, HexDigit, IsHex;
    BytesSpelled(digits, data);
    if rest != "" {
      HexIs(rest[0]);
    }
    var s := "#" + digits + rest;
    assert s[1..] == digits + rest;
    SpanStops(digits, rest, HexDigit);
    assert s[1..1 + |digits|] == digits && s[1 + |digits|..] == rest;
  }

  lemma SidReads(h: SidText, word: string, body: string, sid: Sid, rest: string)
    requires Cased(word, "SID(") && ')' !in body && h.read(body) == Some(sid)
    ensures ReadSid(h, word + (body + ")") + rest) == Got(SidLit(sid), rest)
  {
    hide StartsCi, Cased;
    var s := word + (body + ")") + rest;
    assert |word| == 4 by { CasedLength(word, "SID("); }
    assert s == word + (body + (")" + rest));
    StartsCased(word, "SID(", body + (")" + rest));
    assert s[4..] == body + (")" + rest);
    SpanStops(body, ")" + rest, NotClose);
    assert s[4..4 + |body|] == body && s[5 + |body|..] == rest;
  }

  lemma CasedLength(w: string, kw: string)
    requires Cased(w, kw)
    ensures |w| == |kw|
  {
  }

  lemma ScopeReads(word: string, scope: Scope, rest: string)
    requires Cased(word, ScopeWord(scope))
    ensures ScopeOf(word + rest) == Some(scope) && |word| == |ScopeName(scope)|
  {
    var s := word + rest;
    assert s[0] == word[0] && SameLetter(word[0], ScopeWord(scope)[0]);
    assert forall i :: 0 <= i < |word| ==> s[i] == word[i];
    StartsCased(word, ScopeWord(scope), rest);
    ScopeNames(s, scope);
  }

  /** The scopes differ in their first letters. */
  lemma ScopeNames(s: string, scope: Scope)
    requires StartsCi(s, ScopeWord(scope))
    ensures ScopeOf(s) == Some(scope)
  {
    assert Lower(s[0]) == ScopeWord(scope)[0];
  }

  lemma AttrReads(word: string, scope: Scope, name: string, rest: string)
    requires Cased(word, ScopeWord(scope)) && name != "" && forall i :: 0 <= i < |name| ==> NameChar(name[i])
    requires rest == "" || !NameChar(rest[0])
    ensures ReadAttr("@" + (word + ("." + name)) + rest) == Got(Attr(scope, name), rest)
  {
    hide ScopeOf, ScopeName, ScopeWord, Cased, IdentChar, NameChar;
    var s := "@" + (word + ("." + name)) + rest;
    ScopeReads(word, scope, "." + name + rest);
    assert s[1..] == word + ("." + name + rest);
    var n := 1 + |word|;
    assert s[n] == '.' && s[n + 1..] == name + rest;
    forall i | 0 <= i < |name| ensures IdentChar(name[i]) {
      NameCharIs(name[i]);
    }
    if rest != "" {
      NameCharIs(rest[0]);
    }
    SpanStops(name, rest, IdentChar);
  }

  /** The first character tells what kind of operand it is. */
  predicate Heads(w: Written, c: char) {
    match w
    case IntW(_, _, _, _) => c == '-' || Digit(c)
    case StrW(_) => c == '\"'
    case SidW(_, _, _) => c == 'S' || c == 's'
    case OctetW(_, _) => c == '#'
    case CompositeW(_) => c == '{'
    case AttrW(_, _, _) => c == '@'
  }

  lemma Headed(h: SidText, w: Written)
    requires Spelled(h, w)
    ensures Text(w) != "" && Heads(w, Text(w)[0])
  {
    hide Spells, SpellsBytes, SpelledItems, ItemsText;
    match w
    case IntW(negative, prefix, digits, m) =>
      IntHeaded(prefix, digits, m);
    case SidW(word, body, sid) =>
      assert SameLetter(word[0], "SID("[0]);
    case _ =>
  }

  lemma IntHeaded(prefix: string, digits: string, m: nat)
    requires SpelledInt(prefix, digits, m)
    ensures prefix + digits != "" && Digit((prefix + digits)[0])
  {
    hide Spells;
    if prefix == "" {
      SpelledDecimal(digits, m);
      SpellsSomething(digits, 10, m);
      assert (prefix + digits)[0] == digits[0];
    }
  }

  lemma HeadsApart(w: Written, c: char)
    requires Heads(w, c)
    ensures !Space(c) && c != '}' && c != ',' && c != '(' && c != ')' && c != '!' && c != '='
  {
  }

  lemma PassBlanks(h: SidText, pre: string, s: string)
    requires Blanks(pre) && s != "" && !Space(s[0])
    ensures ReadOperand(h, pre + s) == ReadOperand(h, s)
    ensures SkipWs(pre + s) == s && SkipWs(s) == s
  {
    hide ReadInt, ReadOctet, ReadString, ReadSid, ReadAttr, ReadItems;
    SkipBlanks(pre, s);
    NoSkip(s);
  }

  /** Every spelling of an operand, after any blanks, is read as what it means. */
  lemma {:induction false} OperandReads(h: SidText, pre: string, w: Written, rest: string)
    requires Blanks(pre) && Spelled(h, w) && Ends(w, rest)
    ensures ReadOperand(h, pre + (Text(w) + rest)) == Got(Meant(w), rest)
    decreases w, 1
  {
    hide ReadOperand, Text, Meant, Spelled, Ends, Heads, Blanks;
    Headed(h, w);
    HeadsApart(w, Text(w)[0]);
    assert (Text(w) + rest)[0] == Text(w)[0];
    PassBlanks(h, pre, Text(w) + rest);
    OperandHere(h, w, rest);
  }

  lemma {:induction false} OperandHere(h: SidText, w: Written, rest: string)
    requires Spelled(h, w) && Ends(w, rest)
    ensures ReadOperand(h, Text(w) + rest) == Got(Meant(w), rest)
    decreases w, 0
  {
    hide ReadInt, ReadOctet, ReadString, ReadSid, ReadAttr, ReadItems, Spells, SpellsBytes, SpelledItems, ItemsText, Cased,
         ScopeWord, IsHex, NameChar;
    Headed(h, w);
    var s := Text(w) + rest;
    NoSkip(s);
    match w
    case IntW(negative, prefix, digits, m) => IntReads(negative, prefix, digits, m, rest);
    case StrW(t) =>
      StringRoundTrip(t, rest);
      assert s == "\"" + t + "\"" + rest;
    case SidW(word, body, sid) => SidReads(h, word, body, sid, rest);
    case OctetW(digits, data) => OctetReads(digits, data, rest);
    case CompositeW(items) =>
      ItemsRead(h, items, rest);
      assert s[1..] == ItemsText(items) + rest;
    case AttrW(word, scope, name) => AttrReads(word, scope, name, rest);
  }

  lemma BlanksBreak(post: string, c: char, rest: string)
    requires Blanks(post) && !NameChar(c)
    ensures Breaks(post + ([c] + rest))
  {
    var s := post + ([c] + rest);
    assert s[0] == if post == "" then c else post[0];
  }

  lemma {:induction false} ItemsRead(h: SidText, l: WrittenItems, rest: string)
    requires SpelledItems(h, l)
    ensures ReadItems(h, ItemsText(l) + rest) == Got(ItemsMeant(l), rest)
    decreases l, 0
  {
    hide ReadOperand, Text, Meant, Spelled, Blanks;
    var s := ItemsText(l) + rest;
    match l
    case Close(pre) =>
      assert s == pre + ("}" + rest);
      SkipBlanks(pre, "}" + rest);
      assert ("}" + rest)[1..] == rest;
    case Last(pre, w, post) =>
      var after := post + ("}" + rest);
      assert s == pre + (Text(w) + after);
      ItemRead(h, pre, w, post, '}', rest);
    case More(pre, w, post, more) =>
      var tail := ItemsText(more) + rest;
      var after := post + ("," + tail);
      assert s == pre + (Text(w) + after);
      ItemRead(h, pre, w, post, ',', tail);
      ItemsRead(h, more, rest);
  }

  /** One item of a composite, up to the comma or brace after it. */
  lemma {:induction false} ItemRead(h: SidText, pre: string, w: Written, post: string, c: char, tail: string)
    requires Blanks(pre) && Spelled(h, w) && Blanks(post) && (c == ',' || c == '}')
    ensures var s := SkipWs(pre + (Text(w) + (post + ([c] + tail))));
      && !Starts(s, "}") && ReadOperand(h, s) == Got(Meant(w), post + ([c] + tail))
    ensures var t := SkipWs(post + ([c] + tail)); t == [c] + tail && t[0] == c && t[1..] == tail
    decreases w, 2
  {
    hide ReadOperand, Text, Meant, Spelled, Blanks, Ends, Heads;
    var after := post + ([c] + tail);
    var s := Text(w) + after;
    Headed(h, w);
    HeadsApart(w, Text(w)[0]);
    assert s[0] == Text(w)[0];
    SkipBlanks(pre, s);
    assert !NameChar(c);
    BlanksBreak(post, c, tail);
    BreaksEnds(w, after);
    OperandHere(h, w, after);
    SkipBlanks(post, [c] + tail);
  }

  // ---- and nothing else is read ----

  lemma SpanCut(s: string, p: char -> bool)
    ensures var n := Span(s, p);
      && s == s[..n] + s[n..] && (forall i :: 0 <= i < n ==> p(s[..n][i])) && (s[n..] == "" || !p(s[n..][0]))
  {
  }

  /** The digits after a prefix, and what follows them. */
  lemma CutAfter(t: string, k: nat, p: char -> bool)
    requires k <= |t|
    ensures var n := Span(t[k..], p);
      && k + n <= |t|
      && var d, rest := t[k..k + n], t[k + n..];
      && t == t[..k] + d + rest && (forall i :: 0 <= i < |d| ==> p(d[i])) && (rest == "" || !p(rest[0]))
  {
    hide Span;
    var n := Span(t[k..], p);
    SpanCut(t[k..], p);
    assert t[k..][..n] == t[k..k + n] && t[k..][n..] == t[k + n..];
  }

  lemma HexWritten(t: string) returns (prefix: string, digits: string)
    requires (Starts(t, "0x") || Starts(t, "0X")) && ReadMagnitude(t).Got?
    ensures var r := ReadMagnitude(t);
      && t == prefix + digits + r.rest && SpellsIn(prefix, digits, r.v) && Ends(IntW(false, prefix, digits, r.v), r.rest)
  {
    hide Spells, HexNat, Span, HexDigit, IsHex, DecimalVal;
    CutAfter(t, 2, HexDigit);
    var n := Span(t[2..], HexDigit);
    prefix, digits := t[..2], t[2..2 + n];
    assert prefix == "0x" || prefix == "0X";
    HexSpells(digits);
    if t[2 + n..] != "" {
      HexIs(t[2 + n..][0]);
    }
  }

  lemma DecimalWritten(t: string) returns (digits: string)
    requires !Starts(t, "0x") && !Starts(t, "0X") && ReadMagnitude(t).Got?
    ensures var r := ReadMagnitude(t);
      && t == "" + digits + r.rest && SpellsIn("", digits, r.v) && Ends(IntW(false, "", digits, r.v), r.rest)
  {
    hide Spells, HexNat, Span, DecimalVal, Starts;
    var n := Span(t, Digit);
    SpanCut(t, Digit);
    digits := t[..n];
    DecimalSpells(digits);
    NotPrefix(t, n);
  }

  lemma MagnitudeWritten(t: string) returns (prefix: string, digits: string)
    requires ReadMagnitude(t).Got?
    ensures var r := ReadMagnitude(t);
      && t == prefix + digits + r.rest && SpellsIn(prefix, digits, r.v) && Ends(IntW(false, prefix, digits, r.v), r.rest)
  {
    hide ReadMagnitude, SpellsIn, Ends, Starts;
    if Starts(t, "0x") || Starts(t, "0X") {
      prefix, digits := HexWritten(t);
    } else {
      prefix := "";
      digits := DecimalWritten(t);
    }
  }

  lemma NotPrefix(t: string, n: nat)
    requires !Starts(t, "0x") && !Starts(t, "0X") && 0 < n <= |t|
    ensures t[..n] == "0" && n < |t| ==> t[n..][0] != 'x' && t[n..][0] != 'X'
  {
    if t[..n] == "0" && n < |t| {
      assert n == 1 && t[0] == t[..n][0] == '0';
      assert t[1] == 'x' ==> "0x" <= t;
      assert t[1] == 'X' ==> "0X" <= t;
    }
  }

  lemma EndsUnsigned(negative: bool, prefix: string, digits: string, m: nat, rest: string)
    ensures Ends(IntW(negative, prefix, digits, m), rest) <==> Ends(IntW(false, prefix, digits, m), rest)
  {
  }

  lemma SignParts(negative: bool, prefix: string, digits: string, rest: string)
    ensures var sign := if negative then "-" else "";
      sign + (prefix + digits) + rest == if negative then "-" + (prefix + digits + rest) else prefix + digits + rest
  {
  }

  lemma IntWritten(s: string) returns (w: Written)
    requires s != "" && ReadInt(s).Got?
    ensures w.IntW? && SpelledInt(w.prefix, w.digits, w.m) && Ends(w, ReadInt(s).rest)
    ensures Meant(w) == Int(ReadInt(s).v) && s == Text(w) + ReadInt(s).rest
  {
    hide SpellsIn, ReadMagnitude, Ends;
    var negative := s[0] == '-';
    var t := if negative then s[1..] else s;
    var prefix, digits := MagnitudeWritten(t);
    var m, rest := ReadMagnitude(t).v, ReadMagnitude(t).rest;
    w := IntW(negative, prefix, digits, m);
    EndsUnsigned(negative, prefix, digits, m, rest);
    SignParts(negative, prefix, digits, rest);
    assert negative ==> s == "-" + s[1..];
  }

  lemma StringWritten(s: string)
    requires s != "" && s[0] == '\"' && ReadString(s).Got?
    ensures '\"' !in ReadString(s).v && s == Text(StrW(ReadString(s).v)) + ReadString(s).rest
  {
    SpanCut(s[1..], NotQuote);
    var n := Span(s[1..], NotQuote);
    var t := ReadString(s).v;
    assert t == s[1..][..n] && s[1 + n] == '\"';
  }

  lemma OctetWritten(s: string) returns (digits: string)
    requires s != "" && s[0] == '#' && ReadOctet(s).Got?
    ensures var data, rest := ReadOctet(s).v, ReadOctet(s).rest;
      && data != [] && SpellsBytes(digits, data) && s == "#" + digits + rest && (rest == "" || !IsHex(rest[0]))
  {
    hide SpellsBytes, FromHex, Span, HexDigit, IsHex;
    CutAfter(s, 1, HexDigit);
    var n := Span(s[1..], HexDigit);
    digits := s[1..1 + n];
    HexSpellsBytes(digits);
    assert s[..1] == "#";
    if s[1 + n..] != "" {
      HexIs(s[1 + n..][0]);
    }
  }

  lemma SidWritten(h: SidText, s: string) returns (word: string, body: string)
    requires ReadSid(h, s).Got?
    ensures var sid := ReadSid(h, s).v;
      && sid.SidLit? && Cased(word, "SID(") && ')' !in body && h.read(body) == Some(sid.sid)
      && s == word + (body + ")") + ReadSid(h, s).rest
  {
    hide StartsCi, Cased, Span;
    assert |s| >= 4 by { StartsLength(s, "SID("); }
    SpanCut(s[4..], NotClose);
    var n := Span(s[4..], NotClose);
    word, body := s[..4], s[4..4 + n];
    assert s == word + s[4..];
    StartsCased(word, "SID(", s[4..]);
    assert body == s[4..][..n];
    SidParts(s, n);
  }

  lemma SidParts(s: string, n: nat)
    requires |s| >= 5 + n && s[4 + n] == ')'
    ensures s == s[..4] + (s[4..4 + n] + ")") + s[5 + n..]
  {
  }

  lemma StartsLength(s: string, t: string)
    requires StartsCi(s, t)
    ensures |t| <= |s|
  {
  }

  lemma ScopeLooks(s: string)
    requires ScopeOf(s).Some?
    ensures var scope := ScopeOf(s).value;
      |ScopeWord(scope)| == |ScopeName(scope)| <= |s| && StartsCi(s, ScopeWord(scope))
  {
    var scope := ScopeOf(s).value;
    SameWordCase(s, ScopeName(scope), ScopeWord(scope));
  }

  lemma SameWordCase(s: string, a: string, b: string)
    requires StartsCi(s, a) && |a| == |b| && forall i :: 0 <= i < |a| ==> Lower(a[i]) == Lower(b[i])
    ensures StartsCi(s, b)
  {
  }

  lemma AttrWritten(s: string) returns (word: string)
    requires s != "" && s[0] == '@' && ReadAttr(s).Got?
    ensures var a := ReadAttr(s).v;
      && a.Attr? && Cased(word, ScopeWord(a.scope))
      && a.name != "" && (forall i :: 0 <= i < |a.name| ==> NameChar(a.name[i]))
      && s == "@" + (word + ("." + a.name)) + ReadAttr(s).rest
      && (ReadAttr(s).rest == "" || !NameChar(ReadAttr(s).rest[0]))
  {
    hide ScopeOf, ScopeName, ScopeWord, Cased, StartsCi, IdentChar, NameChar, Span;
    var tail := s[1..];
    var scope := ScopeOf(tail).value;
    ScopeLooks(tail);
    var k := |ScopeWord(scope)|;
    word := tail[..k];
    assert tail == word + tail[k..];
    StartsCased(word, ScopeWord(scope), tail[k..]);
    var u := s[k + 2..];
    SpanCut(u, IdentChar);
    var n := Span(u, IdentChar);
    forall i | 0 <= i < n ensures NameChar(u[..n][i]) {
      NameCharIs(u[..n][i]);
    }
    if u[n..] != "" {
      NameCharIs(u[n..][0]);
    }
    AttrParts(s, k, n);
  }

  lemma AttrParts(s: string, k: nat, n: nat)
    requires |s| >= k + 2 + n && s[0] == '@' && s[k + 1] == '.'
    ensures var u := s[k + 2..]; s == "@" + (s[1..][..k] + ("." + u[..n])) + u[n..]
  {
  }

  /** Whatever is read as an operand is one of its spellings. */
  lemma {:induction false} OperandWritten(h: SidText, s0: string) returns (pre: string, w: Written)
    requires ReadOperand(h, s0).Got?
    ensures Blanks(pre) && Spelled(h, w) && Ends(w, ReadOperand(h, s0).rest)
    ensures Meant(w) == ReadOperand(h, s0).v && s0 == pre + (Text(w) + ReadOperand(h, s0).rest)
    decreases |s0|, 0
  {
    hide ReadInt, ReadOctet, ReadString, ReadSid, ReadAttr, ReadItems, Spells, SpellsBytes, SpelledItems, ItemsText, ItemsMeant,
         Cased, ScopeWord, IsHex, NameChar, Blanks;
    var s := SkipWs(s0);
    pre := Skipped(s0);
    if s[0] == '\"' {
      StringWritten(s);
      w := StrW(ReadString(s).v);
    } else if s[0] == '#' {
      var digits := OctetWritten(s);
      w := OctetW(digits, ReadOctet(s).v);
    } else if s[0] == '{' {
      var items := ItemsWritten(h, s[1..]);
      w := CompositeW(items);
      assert s == "{" + s[1..];
      assert s == "{" + ItemsText(items) + ReadItems(h, s[1..]).rest;
    } else if s[0] == '-' || Digit(s[0]) {
      w := IntWritten(s);
    } else if s[0] == '@' {
      var word := AttrWritten(s);
      w := AttrW(word, ReadAttr(s).v.scope, ReadAttr(s).v.name);
    } else {
      var word, body := SidWritten(h, s);
      w := SidW(word, body, ReadSid(h, s).v.sid);
    }
  }

  lemma {:induction false} ItemsWritten(h: SidText, s0: string) returns (l: WrittenItems)
    requires ReadItems(h, s0).Got?
    ensures SpelledItems(h, l) && ItemsMeant(l) == ReadItems(h, s0).v && s0 == ItemsText(l) + ReadItems(h, s0).rest
    decreases |s0|, 2
  {
    hide ReadOperand, Text, Meant, Spelled, Blanks, Ends;
    var s := SkipWs(s0);
    var pre := Skipped(s0);
    if Starts(s, "}") {
      l := Close(pre);
      assert s == "}" + s[1..];
    } else {
      var w, post := ItemWritten(h, s);
      var t := SkipWs(ReadOperand(h, s).rest);
      if Starts(t, ",") {
        var more := ItemsWritten(h, t[1..]);
        l := More(pre, w, post, more);
        MoreParts(pre, Text(w), post, ItemsText(more), ReadItems(h, t[1..]).rest);
      } else {
        l := Last(pre, w, post);
        LastParts(pre, Text(w), post, t[1..]);
      }
    }
  }

  lemma {:induction false} ItemWritten(h: SidText, s: string) returns (w: Written, post: string)
    requires (s == "" || !Space(s[0])) && ReadOperand(h, s).Got?
    ensures Spelled(h, w) && Blanks(post) && Meant(w) == ReadOperand(h, s).v
    ensures var t := SkipWs(ReadOperand(h, s).rest);
      && s == Text(w) + (post + t)
      && (Starts(t, ",") ==> t == "," + t[1..]) && (Starts(t, "}") ==> t == "}" + t[1..])
    decreases |s|, 1
  {
    hide ReadOperand, Text, Meant, Spelled, Blanks, Ends;
    var none: string;
    none, w := OperandWritten(h, s);
    var rest := ReadOperand(h, s).rest;
    NoBlanksLeft(none, s, Text(w) + rest);
    post := Skipped(rest);
  }

  /** After the blanks are skipped there are none left. */
  lemma NoBlanksLeft(pre: string, s: string, x: string)
    requires Blanks(pre) && s == pre + x && (s == "" || !Space(s[0]))
    ensures pre == "" && s == x
  {
    if pre != "" {
      BlankIs(pre[0]);
    }
  }

  lemma MoreParts(pre: string, w: string, post: string, more: string, end: string)
    ensures pre + (w + (post + ("," + (more + end)))) == pre + (w + (post + ("," + more))) + end
  {
  }

  lemma LastParts(pre: string, w: string, post: string, end: string)
    ensures pre + (w + (post + ("}" + end))) == pre + (w + (post + "}")) + end
  {
  }
}
