/** The emission policy's pure part: event types, the walk of the `Events` tree, and the tiers. */
module PolicyTree {
  import opened Bytes
  import opened Utf8

  const DOT: byte := 0x2e
  const SLASH: byte := 0x2f
  const BACKSLASH: byte := 0x5c

  // ---- event types ----

  /** `split` on dots: one piece more than there are dots. */
  function Split(t: seq<byte>): (r: seq<seq<byte>>)
    ensures r != []
  {
    if t == [] then [[]]
    else if t[0] == DOT then [[]] + Split(t[1..])
    else var r := Split(t[1..]); [[t[0]] + r[0]] + r[1..]
  }

  function Join(segs: seq<seq<byte>>): seq<byte> {
    if segs == [] then [] else if |segs| == 1 then segs[0] else segs[0] + [DOT] + Join(segs[1..])
  }

  /** A segment names exactly one key. */
  predicate NamesKey(seg: seq<byte>) {
    seg != [] && BACKSLASH !in seg && SLASH !in seg && 0 !in seg
  }

  /** `segments`. */
  method Segments(t: seq<byte>) returns (r: Option<seq<seq<byte>>>)
    ensures r.Some? ==> r.value == Split(t)
    ensures r.Some? <==> WellFormed(t)
  {
    if t == [] || !ValidUtf8(t) {
      return None;
    }
    var pieces, out, i := Split(t), [], 0;
    while i < |pieces|
      invariant i <= |pieces| && out == pieces[..i]
      invariant forall k :: 0 <= k < i ==> NamesKey(pieces[k])
    {
      if !NamesKey(pieces[i]) {
        return None;
      }
      out := out + [pieces[i]];
      i := i + 1;
    }
    return Some(out);
  }

  predicate WellFormed(t: seq<byte>) {
    t != [] && ValidUtf8(t) && forall k :: 0 <= k < |Split(t)| ==> NamesKey(Split(t)[k])
  }

  lemma JoinUnfold(s: seq<seq<byte>>)
    requires s != []
    ensures Join(s) == if |s| == 1 then s[0] else s[0] + [DOT] + Join(s[1..])
  {
  }

  lemma JoinDot(r: seq<seq<byte>>)
    requires r != []
    ensures Join([[]] + r) == [DOT] + Join(r)
  {
    hide Join;
    var s := [[]] + r;
    JoinUnfold(s);
    assert s[0] == [] && s[1..] == r;
  }

  lemma JoinFirst(b: byte, r: seq<seq<byte>>)
    requires r != []
    ensures Join([[b] + r[0]] + r[1..]) == [b] + Join(r)
  {
    hide Join;
    var x := [b] + r[0];
    var s := [x] + r[1..];
    JoinUnfold(s);
    JoinUnfold(r);
    assert s[0] == x && s[1..] == r[1..];
    var y := Join(r[1..]);
    assert x + [DOT] + y == [b] + (r[0] + [DOT] + y);
  }

  lemma {:induction false} JoinSplit(t: seq<byte>)
    ensures Join(Split(t)) == t
  {
    hide Join;
    if t == [] {
      JoinNothing();
    } else {
      JoinSplit(t[1..]);
      JoinDot(Split(t[1..]));
      JoinFirst(t[0], Split(t[1..]));
      assert t == [t[0]] + t[1..];
    }
  }

  lemma JoinNothing()
    ensures Join([[]]) == []
  {
  }

  lemma {:induction false} NoDotsInside(t: seq<byte>)
    ensures forall k :: 0 <= k < |Split(t)| ==> DOT !in Split(t)[k]
  {
    if t != [] {
      NoDotsInside(t[1..]);
      var r, s := Split(t[1..]), Split(t);
      forall k | 0 <= k < |s| ensures DOT !in s[k] {
        if t[0] == DOT {
          assert k > 0 ==> s[k] == r[k - 1];
        } else {
          assert s[k] == if k == 0 then [t[0]] + r[0] else r[k];
        }
      }
    }
  }

  lemma {:induction false} SplitPiece(seg: seq<byte>, rest: seq<byte>)
    requires DOT !in seg
    ensures Split(seg + [DOT] + rest) == [seg] + Split(rest)
    ensures Split(seg) == [seg]
    decreases seg
  {
    if seg == [] {
      assert (seg + [DOT] + rest)[1..] == rest;
    } else {
      assert forall b :: b in seg[1..] ==> b in seg;
      SplitPiece(seg[1..], rest);
      assert (seg + [DOT] + rest)[1..] == seg[1..] + [DOT] + rest;
      assert seg == [seg[0]] + seg[1..];
      assert seg[0] in seg;
    }
  }

  lemma {:induction false} SplitJoin(segs: seq<seq<byte>>)
    requires segs != [] && forall k :: 0 <= k < |segs| ==> DOT !in segs[k]
    ensures Split(Join(segs)) == segs
  {
    SplitPiece(segs[0], Join(segs[1..]));
    if |segs| > 1 {
      SplitJoin(segs[1..]);
    }
  }

  /** The bytes no segment holds: the dot, both slashes and zero. */
  lemma KeyNames(segs: seq<seq<byte>>)
    ensures forall k :: 0 <= k < |segs| ==>
      (NamesKey(segs[k]) && DOT !in segs[k] <==>
       segs[k] != [] && forall b :: b in segs[k] ==> b != 0x2e && b != 0x5c && b != 0x2f && b != 0)
  {
  }

  /** An event type is accepted, with these segments, exactly when it is their dotted spelling. */
  lemma SegmentsExact(t: seq<byte>, segs: seq<seq<byte>>)
    ensures WellFormed(t) && Split(t) == segs <==>
      && segs != [] && ValidUtf8(t) && t == Join(segs)
      && forall k :: 0 <= k < |segs| ==>
        segs[k] != [] && forall b :: b in segs[k] ==> b != 0x2e && b != 0x5c && b != 0x2f && b != 0
  {
    JoinSplit(t);
    NoDotsInside(t);
    KeyNames(segs);
    if segs != [] && t == Join(segs) && forall k :: 0 <= k < |segs| ==> NamesKey(segs[k]) && DOT !in segs[k] {
      SplitJoin(segs);
      assert NamesKey(segs[0]);
    }
  }

  const LETTER: seq<byte> := [0x61]

  lemma OneLetterType()
    ensures WellFormed(LETTER)
  {
    SplitPiece(LETTER, []);
    AsciiIsUtf8(LETTER);
  }

  // ---- the tree ----

  const REG_DWORD := 4

  datatype RegValue = RegValue(kind: nat, data: seq<byte>)

  /** A registry key as the walk sees it: its `Enabled` value and the subkeys that may be read. */
  datatype Key = Key(value: Option<RegValue>, children: map<seq<byte>, Key>)

  function InterpretEnabled(v: RegValue): Option<bool> {
    if v.kind != REG_DWORD || |v.data| != 4 then None
    else if FromLE(v.data) == 0 then Some(false)
    else if FromLE(v.data) == 1 then Some(true)
    else None
  }

  lemma WordBytes(n: byte)
    ensures ToLE(n, 4) == [n, 0, 0, 0]
  {
    assert ToLE(0, 1) == [0] + ToLE(0, 0);
    assert ToLE(0, 2) == [0] + ToLE(0, 1);
    assert ToLE(0, 3) == [0] + ToLE(0, 2);
  }

  /** A setting is a 32-bit 0 or 1 (value type 4, `REG_DWORD`) and nothing else. */
  lemma EnabledExact(v: RegValue, on: bool)
    ensures InterpretEnabled(v) == Some(on) <==> v == RegValue(4, [if on then 1 else 0, 0, 0, 0])
  {
    WordBytes(if on then 1 else 0);
    PowValues();
    LeRoundTrip(if on then 1 else 0, 4);
    if |v.data| == 4 {
      LeInverse(v.data);
    }
  }

  function Enabled(k: Key): Option<bool> {
    if k.value.Some? then InterpretEnabled(k.value.value) else None
  }

  /** The key a path of segments leads to. */
  function KeyAt(k: Key, path: seq<seq<byte>>): Option<Key>
    decreases |path|
  {
    if path == [] then Some(k)
    else if path[0] in k.children then KeyAt(k.children[path[0]], path[1..])
    else None
  }

  function SettingAt(k: Key, path: seq<seq<byte>>): Option<bool> {
    match KeyAt(k, path) case None => None case Some(at) => Enabled(at)
  }

  /** The setting on the longest prefix of `segs`, no longer than `n`, that has one. */
  function Deepest(k: Key, segs: seq<seq<byte>>, n: nat): Option<bool>
    requires n <= |segs|
  {
    if SettingAt(k, segs[..n]).Some? then SettingAt(k, segs[..n])
    else if n == 0 then None
    else Deepest(k, segs, n - 1)
  }

  function Setting(k: Key, segs: seq<seq<byte>>): Option<bool> {
    Deepest(k, segs, |segs|)
  }

  lemma {:induction false} KeyAtAppend(k: Key, path: seq<seq<byte>>, seg: seq<byte>)
    ensures KeyAt(k, path + [seg])
      == match KeyAt(k, path)
         case None => None
         case Some(at) => if seg in at.children then Some(at.children[seg]) else None
    decreases |path|
  {
    if path == [] {
      assert path + [seg] == [seg];
      assert [seg][1..] == [];
    } else {
      assert (path + [seg])[1..] == path[1..] + [seg];
      if path[0] in k.children {
        KeyAtAppend(k.children[path[0]], path[1..], seg);
      }
    }
  }

  /** Below a missing key nothing is set. */
  lemma {:induction false} MissingBelow(k: Key, segs: seq<seq<byte>>, d: nat, n: nat)
    requires d <= n <= |segs| && KeyAt(k, segs[..d]) == None
    ensures KeyAt(k, segs[..n]) == None
    ensures d > 0 ==> Deepest(k, segs, n) == Deepest(k, segs, d - 1)
    decreases n
  {
    if d < n {
      MissingBelow(k, segs, d, n - 1);
      assert segs[..n] == segs[..n - 1] + [segs[n - 1]];
      KeyAtAppend(k, segs[..n - 1], segs[n - 1]);
    }
  }

  /** `resolve`: one key per segment, keeping the last setting seen. */
  method Resolve(root: Key, segs: seq<seq<byte>>) returns (setting: Option<bool>)
    ensures setting == Setting(root, segs)
  {
    setting := None;
    var key, depth := root, 0;
    while true
      invariant depth <= |segs| && KeyAt(root, segs[..depth]) == Some(key)
      invariant depth > 0 ==> setting == Deepest(root, segs, depth - 1)
      invariant depth == 0 ==> setting == None
      decreases |segs| - depth
    {
      if Enabled(key).Some? {
        setting := Enabled(key);
      }
      if depth == |segs| {
        assert segs[..depth] == segs;
        return;
      }
      assert segs[..depth + 1] == segs[..depth] + [segs[depth]];
      KeyAtAppend(root, segs[..depth], segs[depth]);
      if segs[depth] !in key.children {
        MissingBelow(root, segs, depth + 1, |segs|);
        return;
      }
      key := key.children[segs[depth]];
      depth := depth + 1;
    }
  }

  /** The deepest setting wins: the result is the one on a prefix below which nothing is set. */
  lemma {:induction false} DeepestWins(k: Key, segs: seq<seq<byte>>, n: nat, on: bool)
    requires n <= |segs|
    ensures Deepest(k, segs, n) == Some(on) <==>
      exists d :: 0 <= d <= n && SettingAt(k, segs[..d]) == Some(on)
        && forall e :: d < e <= n ==> SettingAt(k, segs[..e]) == None
    decreases n
  {
    var here := SettingAt(k, segs[..n]);
    if here.None? && n > 0 {
      DeepestWins(k, segs, n - 1, on);
    }
  }

  /** The settings along the path decide. */
  lemma {:induction false} OnlyThePathMatters(k: Key, k': Key, segs: seq<seq<byte>>, n: nat)
    requires n <= |segs| && forall d :: 0 <= d <= n ==> SettingAt(k, segs[..d]) == SettingAt(k', segs[..d])
    ensures Deepest(k, segs, n) == Deepest(k', segs, n)
    decreases n
  {
    assert SettingAt(k, segs[..n]) == SettingAt(k', segs[..n]);
    if n > 0 {
      OnlyThePathMatters(k, k', segs, n - 1);
    }
  }

  /** The tree with the key at `path` replaced, created or, with no `sub`, deleted, subkeys and all. */
  function Graft(k: Key, path: seq<seq<byte>>, sub: Option<Key>): Key
    requires path != []
    decreases |path|
  {
    if |path| == 1 then
      k.(children := if sub.Some? then k.children[path[0] := sub.value] else k.children - {path[0]})
    else if path[0] in k.children then
      k.(children := k.children[path[0] := Graft(k.children[path[0]], path[1..], sub)])
    else k
  }

  lemma {:induction false} GraftElsewhere(k: Key, path: seq<seq<byte>>, sub: Option<Key>, q: seq<seq<byte>>)
    requires path != [] && !(path <= q)
    ensures SettingAt(Graft(k, path, sub), q) == SettingAt(k, q)
    decreases |path|
  {
    if q != [] && path[0] == q[0] && |path| > 1 && q[0] in k.children {
      GraftElsewhere(k.children[q[0]], path[1..], sub, q[1..]);
    }
  }

  /** Whatever is changed, created or deleted at a key off the type's path leaves its setting alone. */
  lemma OffPathChange(k: Key, path: seq<seq<byte>>, sub: Option<Key>, segs: seq<seq<byte>>)
    requires path != [] && !(path <= segs)
    ensures Setting(Graft(k, path, sub), segs) == Setting(k, segs)
  {
    hide Graft, SettingAt;
    forall d | 0 <= d <= |segs| ensures SettingAt(k, segs[..d]) == SettingAt(Graft(k, path, sub), segs[..d]) {
      GraftElsewhere(k, path, sub, segs[..d]);
    }
    OnlyThePathMatters(k, Graft(k, path, sub), segs, |segs|);
  }

  // ---- tiers ----

  const ESSENTIAL := 0
  const STANDARD := 1
  const VERBOSE := 2
  const DEBUG := 3

  function Or(setting: Option<bool>, default_: bool): bool {
    if setting.Some? then setting.value else default_
  }

  function Decide(tier: nat, setting: Option<bool>): Option<bool> {
    if tier == ESSENTIAL then Some(true)
    else if tier == STANDARD then Some(Or(setting, true))
    else if tier == VERBOSE || tier == DEBUG then Some(Or(setting, false))
    else None
  }

  /**
   * What an answer says at a tier: an essential type (0) is always on, a standard one (1) is off only
   * where it is switched off, a verbose or debug one (2, 3) is on only where it is switched on, and
   * there is no other tier.
   */
  predicate Decided(tier: nat, setting: Option<bool>, answer: Option<bool>) {
    && (answer.Some? <==> tier <= 3)
    && (tier == 0 ==> answer != Some(false))
    && (tier == 1 ==> (answer == Some(false) <==> setting == Some(false)))
    && (tier == 2 || tier == 3 ==> (answer == Some(true) <==> setting == Some(true)))
  }

  lemma TrueOrFalse(x: Option<bool>)
    ensures x == None || x == Some(true) || x == Some(false)
  {
    if x.Some? && x.value {
      assert x == Some(true);
    } else if x.Some? {
      assert x == Some(false);
    }
  }

  lemma DecideDecides(tier: nat, setting: Option<bool>, answer: Option<bool>)
    ensures Decided(tier, setting, answer) <==> answer == Decide(tier, setting)
  {
    TrueOrFalse(answer);
    TrueOrFalse(setting);
  }
}
