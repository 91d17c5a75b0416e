/** The recursive MessagePack grammar over whole values, and the tree its bytes determine. */
module MsgPackGrammar {
  import opened Bytes
  import opened Utf8
  import opened MsgPack

  /** A value; a map's items are its keys and values in turn. */
  datatype Value =
    | Leaf(t: Token)
    | Array(items: seq<Value>)
    | Map(items: seq<Value>)

  /** The head a value starts with, if it is a value at all. */
  function HeadOf(v: Value): Option<Token> {
    match v
    case Leaf(t) => if t.TArray? || t.TMap? then None else Some(t)
    case Array(items) => Some(TArray(|items|))
    case Map(items) => if |items| % 2 == 0 then Some(TMap(|items| / 2)) else None
  }

  /** `s` is an encoding of `v`: a head from the format table, then encodings of the children. */
  ghost predicate Derives(v: Value, s: seq<byte>)
    decreases v, 1
  {
    exists k :: 0 <= k <= |s| && DerivesAt(v, s, k)
  }

  ghost predicate DerivesAt(v: Value, s: seq<byte>, k: nat)
    requires k <= |s|
    decreases v, 0
  {
    && HeadOf(v).Some? && IsHead(HeadOf(v).value, s[..k])
    && match v
       case Leaf(_) => s[k..] == []
       case Array(items) => DerivesAll(items, s[k..])
       case Map(items) => DerivesAll(items, s[k..])
  }

  /** `s` is encodings of `vs`, one after the other. */
  ghost predicate DerivesAll(vs: seq<Value>, s: seq<byte>)
    decreases vs, 2
  {
    if vs == [] then s == []
    else exists k :: 0 <= k <= |s| && Derives(vs[0], s[..k]) && DerivesAll(vs[1..], s[k..])
  }

  /** A leaf or an empty container has depth 1; a non-empty container one more than its deepest child. */
  function Depth(v: Value): (d: nat)
    ensures d >= 1
    decreases v, 1
  {
    match v
    case Leaf(_) => 1
    case Array(items) => 1 + MaxDepth(items)
    case Map(items) => 1 + MaxDepth(items)
  }

  function MaxDepth(vs: seq<Value>): (d: nat)
    ensures vs != [] ==> d >= 1
    decreases vs, 0
  {
    if vs == [] then 0
    else
      var d, m := Depth(vs[0]), MaxDepth(vs[1..]);
      if d > m then d else m
  }

  /** Every string is UTF-8. */
  predicate StringsOk(v: Value)
    decreases v, 1
  {
    match v
    case Leaf(t) => t.TStr? ==> ValidUtf8(t.s)
    case Array(items) => AllStringsOk(items)
    case Map(items) => AllStringsOk(items)
  }

  predicate AllStringsOk(vs: seq<Value>)
    decreases vs, 0
  {
    vs == [] || (StringsOk(vs[0]) && AllStringsOk(vs[1..]))
  }

  // ---- the tree a byte string determines ----

  /** The values read and how many bytes they took. */
  datatype Forest = NoForest | Trees(vs: seq<Value>, used: nat)

  function Build(t: Token, kids: seq<Value>): Value {
    if t.TArray? then Array(kids) else if t.TMap? then Map(kids) else Leaf(t)
  }

  /** Reads `n` values from the front of `s`. */
  function ParseForest(s: seq<byte>, n: nat): (r: Forest)
    ensures r.Trees? ==> |r.vs| == n && n <= r.used <= |s|
    decreases |s|, n
  {
    if n == 0 then Trees([], 0)
    else
      match ReadHead(s)
      case NoHead => NoForest
      case Read(t, len) =>
        match ParseForest(s[len..], Children(t))
        case NoForest => NoForest
        case Trees(kids, u) =>
          match ParseForest(s[len + u..], n - 1)
          case NoForest => NoForest
          case Trees(vs, w) => Trees([Build(t, kids)] + vs, len + u + w)
  }

  function Then(a: Forest, b: Forest): Forest {
    if a.Trees? && b.Trees? then Trees(a.vs + b.vs, a.used + b.used) else NoForest
  }

  function Cons(v: Value, len: nat, f: Forest): Forest {
    if f.Trees? then Trees([v] + f.vs, len + f.used) else NoForest
  }

  lemma ConsThen(v: Value, len: nat, a: Forest, b: Forest)
    ensures Then(Cons(v, len, a), b) == Cons(v, len, Then(a, b))
  {
    if a.Trees? && b.Trees? {
      assert [v] + (a.vs + b.vs) == [v] + a.vs + b.vs;
    }
  }

  lemma ForestZero(s: seq<byte>)
    ensures ParseForest(s, 0) == Trees([], 0)
  {
  }

  lemma ForestUnfold(s: seq<byte>, n: nat)
    requires n > 0
    ensures var h := ReadHead(s);
      ParseForest(s, n) ==
      if h.NoHead? then NoForest
      else
        var kids := ParseForest(s[h.len..], Children(h.t));
        if kids.NoForest? then NoForest
        else Cons(Build(h.t, kids.vs), h.len + kids.used, ParseForest(s[h.len + kids.used..], n - 1))
  {
    hide ReadHead;
  }

  /** `a` values and then `b` values are `a + b` values. */
  lemma {:induction false} ForestSplit(s: seq<byte>, a: nat, b: nat)
    ensures var first := ParseForest(s, a);
      ParseForest(s, a + b) == if first.NoForest? then NoForest else Then(first, ParseForest(s[first.used..], b))
    decreases |s|, a
  {
    hide ReadHead, ParseForest;
    if a == 0 {
      ForestZero(s);
      assert s[0..] == s;
      var r := ParseForest(s, b);
      if r.Trees? {
        assert [] + r.vs == r.vs;
      }
    } else {
      ForestUnfold(s, a);
      ForestUnfold(s, a + b);
      var h := ReadHead(s);
      if h.Read? {
        var kids := ParseForest(s[h.len..], Children(h.t));
        if kids.Trees? {
          var at := h.len + kids.used;
          var x := ParseForest(s[at..], a - 1);
          ForestSplit(s[at..], a - 1, b);
          assert a + b - 1 == (a - 1) + b;
          if x.Trees? {
            assert s[at..][x.used..] == s[at + x.used..];
            ConsThen(Build(h.t, kids.vs), at, x, ParseForest(s[at + x.used..], b));
          }
        }
      }
    }
  }

  lemma HeadOfBuild(t: Token, kids: seq<Value>)
    requires |kids| == Children(t)
    ensures HeadOf(Build(t, kids)) == Some(t)
  {
  }

  /** A head that is read and children the grammar derives after it make a derived value. */
  lemma TreeSound(s: seq<byte>, kids: Forest)
    requires ReadHead(s).Read? && kids.Trees? && |kids.vs| == Children(ReadHead(s).t)
    requires kids.used <= |s| - ReadHead(s).len && DerivesAll(kids.vs, s[ReadHead(s).len..][..kids.used])
    requires kids.vs == [] ==> kids.used == 0
    ensures var h := ReadHead(s); Derives(Build(h.t, kids.vs), s[..h.len + kids.used])
  {
    hide ReadHead, IsHead;
    var h := ReadHead(s);
    var at, v := h.len + kids.used, Build(h.t, kids.vs);
    ReadHeadSound(s);
    HeadOfBuild(h.t, kids.vs);
    assert s[..at][..h.len] == s[..h.len];
    assert s[..at][h.len..] == s[h.len..][..kids.used];
    assert DerivesAt(v, s[..at], h.len);
  }

  lemma DerivesCons(v: Value, vs: seq<Value>, s: seq<byte>, at: nat)
    requires at <= |s| && Derives(v, s[..at]) && DerivesAll(vs, s[at..])
    ensures DerivesAll([v] + vs, s)
  {
    hide Derives;
    assert ([v] + vs)[1..] == vs;
  }

  /** What is read is derived by the grammar. */
  lemma {:induction false} ForestSound(s: seq<byte>, n: nat)
    requires ParseForest(s, n).Trees?
    ensures var r := ParseForest(s, n); DerivesAll(r.vs, s[..r.used])
    decreases |s|, n
  {
    hide ReadHead, IsHead, Derives, DerivesAll, ParseForest, Build;
    var r := ParseForest(s, n);
    if n == 0 {
      ForestZero(s);
      NothingDerived();
    } else {
      ForestUnfold(s, n);
      var h := ReadHead(s);
      var kids := ParseForest(s[h.len..], Children(h.t));
      var at, v := h.len + kids.used, Build(h.t, kids.vs);
      var later := ParseForest(s[at..], n - 1);
      ForestSound(s[h.len..], Children(h.t));
      if Children(h.t) == 0 {
        ForestZero(s[h.len..]);
      }
      TreeSound(s, kids);
      ForestSound(s[at..], n - 1);
      assert s[..r.used][..at] == s[..at];
      assert s[..r.used][at..] == s[at..][..later.used];
      DerivesCons(v, later.vs, s[..r.used], at);
    }
  }

  lemma NothingDerived()
    ensures DerivesAll([], [])
  {
  }

  /** What the grammar derives is read back, whatever follows. */
  lemma {:induction false} ForestComplete(vs: seq<Value>, s: seq<byte>, rest: seq<byte>)
    requires DerivesAll(vs, s)
    ensures ParseForest(s + rest, |vs|) == Trees(vs, |s|)
    decreases vs, 1
  {
    hide ReadHead, IsHead, Derives, DerivesAll, ParseForest;
    if vs == [] {
      NothingElse(s);
      ForestZero(s + rest);
    } else {
      var k := FirstDerived(vs, s);
      assert s + rest == s[..k] + (s[k..] + rest);
      TreeComplete(vs[0], s[..k], s[k..] + rest);
      ForestComplete(vs[1..], s[k..], rest);
      ForestSplit(s + rest, 1, |vs| - 1);
      assert (s + rest)[k..] == s[k..] + rest;
      assert [vs[0]] + vs[1..] == vs;
    }
  }

  lemma NothingElse(s: seq<byte>)
    requires DerivesAll([], s)
    ensures s == []
  {
  }

  /** Where the first of several derived values ends. */
  lemma FirstDerived(vs: seq<Value>, s: seq<byte>) returns (k: nat)
    requires vs != [] && DerivesAll(vs, s)
    ensures k <= |s| && Derives(vs[0], s[..k]) && DerivesAll(vs[1..], s[k..])
  {
    hide Derives;
    k :| 0 <= k <= |s| && Derives(vs[0], s[..k]) && DerivesAll(vs[1..], s[k..]);
  }

  function ItemsOf(v: Value): seq<Value> {
    if v.Leaf? then [] else v.items
  }

  /** Where the head of a derived value ends, and that its children follow. */
  lemma HeadDerived(v: Value, s: seq<byte>) returns (k: nat)
    requires Derives(v, s)
    ensures k <= |s| && HeadOf(v).Some? && IsHead(HeadOf(v).value, s[..k])
    ensures DerivesAll(ItemsOf(v), s[k..]) && |ItemsOf(v)| == Children(HeadOf(v).value)
    ensures Build(HeadOf(v).value, ItemsOf(v)) == v
  {
    hide IsHead;
    k :| 0 <= k <= |s| && DerivesAt(v, s, k);
  }

  lemma {:induction false} TreeComplete(v: Value, s: seq<byte>, rest: seq<byte>)
    requires Derives(v, s)
    ensures ParseForest(s + rest, 1) == Trees([v], |s|)
    decreases v, 0
  {
    hide ReadHead, IsHead, Derives, DerivesAll, ParseForest, HeadOf, Build;
    var k := HeadDerived(v, s);
    var t, all, items := HeadOf(v).value, s + rest, ItemsOf(v);
    assert all == s[..k] + (s[k..] + rest);
    ReadHeadComplete(t, s[..k], s[k..] + rest);
    assert all[k..] == s[k..] + rest;
    if items == [] {
      NothingElse(s[k..]);
      ForestZero(all[k..]);
    } else {
      ForestComplete(items, s[k..], rest);
    }
    ForestUnfold(all, 1);
    ForestZero(all[|s|..]);
    assert [v] + [] == [v];
  }

  /** One value and nothing after it: the tree is there exactly when the grammar derives it. */
  lemma ParseIsGrammar(s: seq<byte>, v: Value)
    ensures ParseForest(s, 1) == Trees([v], |s|) <==> Derives(v, s)
  {
    hide ReadHead, IsHead;
    if ParseForest(s, 1) == Trees([v], |s|) {
      ForestSound(s, 1);
      assert s[..|s|] == s;
      var k :| 0 <= k <= |s| && Derives([v][0], s[..k]) && DerivesAll([v][1..], s[k..]);
      assert s[k..] == [];
      assert s[..k] == s;
    }
    if Derives(v, s) {
      TreeComplete(v, s, []);
      assert s + [] == s;
    }
  }

  /** A byte string encodes at most one value. */
  lemma GrammarUnambiguous(s: seq<byte>, v: Value, w: Value)
    requires Derives(v, s) && Derives(w, s)
    ensures v == w
  {
    ParseIsGrammar(s, v);
    ParseIsGrammar(s, w);
  }

  lemma {:induction false} StringsOkAppend(vs: seq<Value>, ws: seq<Value>)
    ensures AllStringsOk(vs + ws) <==> AllStringsOk(vs) && AllStringsOk(ws)
  {
    if vs == [] {
      assert vs + ws == ws;
    } else {
      StringsOkAppend(vs[1..], ws);
      assert (vs + ws)[1..] == vs[1..] + ws;
    }
  }

  lemma {:induction false} MaxDepthAppend(vs: seq<Value>, ws: seq<Value>)
    ensures MaxDepth(vs + ws) == if MaxDepth(vs) > MaxDepth(ws) then MaxDepth(vs) else MaxDepth(ws)
  {
    if vs == [] {
      assert vs + ws == ws;
    } else {
      MaxDepthAppend(vs[1..], ws);
      assert (vs + ws)[1..] == vs[1..] + ws;
    }
  }
}
