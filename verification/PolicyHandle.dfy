/** The policy handle as it runs: its fields, its sorted cache, and the calls that change them. */
module PolicyHandle {
  import opened Bytes
  import opened PolicyTree
  import opened PolicyWatch
  import opened PolicyCache

  // ---- the order of the cache ----

  /** Byte-wise lexicographic order. */
  predicate Less(a: seq<byte>, b: seq<byte>) {
    b != [] && (a == [] || a[0] < b[0] || (a[0] == b[0] && Less(a[1..], b[1..])))
  }

  lemma {:induction false} LessTotal(a: seq<byte>, b: seq<byte>)
    ensures Less(a, b) || a == b || Less(b, a)
    ensures !(Less(a, b) && (a == b || Less(b, a)))
  {
    if a != [] && b != [] && a[0] == b[0] {
      LessTotal(a[1..], b[1..]);
      assert a == [a[0]] + a[1..] && b == [b[0]] + b[1..];
    }
  }

  lemma {:induction false} LessTrans(a: seq<byte>, b: seq<byte>, c: seq<byte>)
    requires Less(a, b) && Less(b, c)
    ensures Less(a, c)
  {
    if a != [] && a[0] == b[0] && b[0] == c[0] {
      LessTrans(a[1..], b[1..], c[1..]);
    }
  }

  datatype Entry = Entry(key: seq<byte>, setting: Option<bool>)

  predicate Sorted(es: seq<Entry>) {
    forall i, j :: 0 <= i < j < |es| ==> Less(es[i].key, es[j].key)
  }

  /** Where `key` is, or belongs. */
  predicate Position(es: seq<Entry>, key: seq<byte>, at: nat) {
    && at <= |es|
    && (forall i :: 0 <= i < at ==> Less(es[i].key, key))
    && (forall i :: at <= i < |es| ==> es[i].key == key || Less(key, es[i].key))
  }

  predicate Keys(es: seq<Entry>, key: seq<byte>) {
    exists i :: 0 <= i < |es| && es[i].key == key
  }

  function AsMap(es: seq<Entry>): map<seq<byte>, Option<bool>> {
    if es == [] then map[] else AsMap(es[..|es| - 1])[es[|es| - 1].key := es[|es| - 1].setting]
  }

  lemma KeysOfLast(es: seq<Entry>, k: seq<byte>)
    requires es != []
    ensures Keys(es, k) <==> Keys(es[..|es| - 1], k) || k == es[|es| - 1].key
  {
    var front := es[..|es| - 1];
    assert forall i :: 0 <= i < |front| ==> front[i] == es[i];
  }

  lemma LastIsNew(es: seq<Entry>)
    requires Sorted(es) && es != []
    ensures Sorted(es[..|es| - 1]) && !Keys(es[..|es| - 1], es[|es| - 1].key)
  {
    hide Less;
    var front, last := es[..|es| - 1], es[|es| - 1];
    forall i | 0 <= i < |front| ensures front[i].key != last.key {
      LessTotal(es[i].key, last.key);
    }
  }

  lemma {:induction false} AsMapExact(es: seq<Entry>)
    requires Sorted(es)
    ensures |AsMap(es)| == |es|
    ensures forall k :: k in AsMap(es) <==> Keys(es, k)
    ensures forall i :: 0 <= i < |es| ==> es[i].key in AsMap(es) && AsMap(es)[es[i].key] == es[i].setting
  {
    hide Less, Sorted, Keys;
    if es == [] {
      NoKeys();
    } else {
      var front, last := es[..|es| - 1], es[|es| - 1];
      LastIsNew(es);
      AsMapExact(front);
      forall k ensures k in AsMap(es) <==> Keys(es, k) {
        KeysOfLast(es, k);
      }
      forall i | 0 <= i < |es| ensures es[i].key in AsMap(es) && AsMap(es)[es[i].key] == es[i].setting {
        assert i < |front| ==> es[i] == front[i];
      }
    }
  }

  lemma NoKeys()
    ensures forall k :: !Keys([], k)
  {
  }

  lemma KeyedAt(es: seq<Entry>, k: seq<byte>, m: map<seq<byte>, Option<bool>>, n: map<seq<byte>, Option<bool>>)
    requires Keys(es, k)
    requires forall i :: 0 <= i < |es| ==> es[i].key in m && m[es[i].key] == es[i].setting
    requires forall i :: 0 <= i < |es| ==> es[i].key in n && n[es[i].key] == es[i].setting
    ensures k in m && k in n && m[k] == n[k]
  {
    var i :| 0 <= i < |es| && es[i].key == k;
  }

  /** Two maps agree when a sorted list gives both. */
  lemma MapOfList(es: seq<Entry>, m: map<seq<byte>, Option<bool>>)
    requires Sorted(es)
    requires forall k :: k in m <==> Keys(es, k)
    requires forall i :: 0 <= i < |es| ==> es[i].key in m && m[es[i].key] == es[i].setting
    ensures AsMap(es) == m
  {
    hide AsMap, Less, Sorted;
    AsMapExact(es);
    var n := AsMap(es);
    forall k ensures (k in m <==> k in n) && (k in m ==> n[k] == m[k]) {
      if k in m {
        hide Keys;
        KeyedAt(es, k, m, n);
      }
    }
  }

  lemma EmptyMap()
    ensures AsMap([]) == map[] && Sorted([])
  {
  }

  lemma PositionInside(es: seq<Entry>, key: seq<byte>, at: nat)
    requires Position(es, key, at)
    ensures at <= |es|
  {
  }

  function Insert(es: seq<Entry>, at: nat, e: Entry): (out: seq<Entry>)
    requires at <= |es|
    ensures |out| == |es| + 1
    ensures forall i :: 0 <= i < |out| ==> out[i] == if i < at then es[i] else if i == at then e else es[i - 1]
  {
    es[..at] + [e] + es[at..]
  }

  lemma InsertKeys(es: seq<Entry>, at: nat, e: Entry, k: seq<byte>)
    requires at <= |es|
    ensures Keys(Insert(es, at, e), k) <==> Keys(es, k) || k == e.key
  {
    var out := Insert(es, at, e);
    assert out[at] == e;
    if Keys(es, k) {
      var i :| 0 <= i < |es| && es[i].key == k;
      assert out[if i < at then i else i + 1] == es[i];
    }
  }

  lemma InsertSorted(es: seq<Entry>, at: nat, e: Entry)
    requires Sorted(es) && Position(es, e.key, at) && !Keys(es, e.key)
    ensures Sorted(Insert(es, at, e))
  {
    hide Less;
  }

  lemma InsertMaps(es: seq<Entry>, at: nat, e: Entry)
    requires Sorted(es) && Position(es, e.key, at) && !Keys(es, e.key)
    ensures AsMap(Insert(es, at, e)) == AsMap(es)[e.key := e.setting]
  {
    hide Less, AsMap, Keys, Sorted;
    InsertSorted(es, at, e);
    AsMapExact(es);
    var out, m := Insert(es, at, e), AsMap(es)[e.key := e.setting];
    forall k ensures k in m <==> Keys(out, k) {
      InsertKeys(es, at, e, k);
    }
    forall i | 0 <= i < |out| ensures out[i].key in m && m[out[i].key] == out[i].setting {
      assert i != at ==> e.key !in AsMap(es) && out[i] == es[if i < at then i else i - 1];
    }
    MapOfList(out, m);
  }

  /** `binary_search_by` over the sorted cache. */
  method Search(es: seq<Entry>, key: seq<byte>) returns (at: nat, found: bool)
    requires Sorted(es)
    ensures Position(es, key, at)
    ensures found == Keys(es, key)
    ensures found ==> at < |es| && es[at].key == key
  {
    var lo, hi := 0, |es|;
    while lo < hi
      invariant 0 <= lo <= hi <= |es|
      invariant forall i :: 0 <= i < lo ==> Less(es[i].key, key)
      invariant forall i :: hi <= i < |es| ==> es[i].key == key || Less(key, es[i].key)
    {
      hide Less;
      var mid := (lo + hi) / 2;
      LessTotal(es[mid].key, key);
      if Less(es[mid].key, key) {
        forall i | 0 <= i < mid ensures Less(es[i].key, key) {
          LessTrans(es[i].key, es[mid].key, key);
        }
        lo := mid + 1;
      } else {
        forall i | mid < i < |es| ensures es[i].key == key || Less(key, es[i].key) {
          if es[mid].key != key {
            LessTrans(key, es[mid].key, es[i].key);
          }
        }
        hi := mid;
      }
    }
    at := lo;
    found := at < |es| && es[at].key == key;
    if !found {
      forall i | 0 <= i < |es| ensures es[i].key != key {
        LessTotal(es[i].key, key);
        if i > at {
          LessTotal(key, es[at].key);
          LessTrans(key, es[at].key, es[i].key);
        }
      }
    }
  }

  // ---- the handle ----

  class Policy {
    var root: Option<nat>
    var rootWatched: bool
    var ancestor: Option<Ancestor>
    var retryAt: nat
    var entries: seq<Entry>

    ghost predicate Valid()
      reads this
    {
      Sorted(entries) && (root.None? ==> entries == [])
    }

    ghost function State(): Handle
      reads this
    {
      Handle(root, rootWatched, ancestor, retryAt, AsMap(entries))
    }

    /** `peios_event_policy_open`. */
    constructor (r: Registry)
      ensures Valid() && State() == Open(r).h
    {
      root, rootWatched, ancestor, retryAt, entries := None, false, None, 0, [];
      new;
      EstablishIn(r);
    }

    method Teardown()
      modifies this
      ensures Valid() && State() == Handle(None, false, None, old(retryAt), map[])
    {
      root, rootWatched, ancestor, entries := None, false, None, [];
    }

    /** `establish`: open `Events`, or watch above it and look once more. */
    method EstablishIn(r: Registry)
      modifies this
      ensures Valid() && State() == Establish(old(retryAt), r)
    {
      Teardown();
      var round := 0;
      while round < 2
        invariant Valid() && root.None? && !rootWatched && entries == [] && retryAt == old(retryAt)
        invariant ancestor.Some? ==> r.admits && r.events.None? && ancestor == WatchableAncestor(r)
        invariant round == 1 ==> ancestor.Some?
        invariant round == 2 ==> ancestor.Some?
      {
        if r.admits && r.events.Some? {
          root, rootWatched, ancestor := Some(r.events.value.id), r.arms, None;
          break;
        } else if r.admits && ancestor.None? {
          ancestor := WatchableAncestor(r);
          if ancestor.None? {
            break;
          }
        } else {
          break;
        }
        round := round + 1;
      }
      if !rootWatched && ancestor.None? {
        retryAt := RetryAt(r.now);
      }
    }

    /** `refresh`, with the kernel's answers to the drain. */
    method RefreshFrom(r: Registry, answers: seq<ReadResult>, deleted: nat)
      requires Valid()
      modifies this
      ensures Valid() && State() == Refresh(old(State()), r, answers, deleted)
    {
      hide Drained, Establish;
      if rootWatched || ancestor.Some? {
        var news := Drain(answers, deleted);
        if news.gone || (news.changed && ancestor.Some?) {
          EstablishIn(r);
        } else if news.changed {
          entries := [];
        }
      } else if r.now >= retryAt {
        EstablishIn(r);
      }
    }

    /** `setting`: from the cache, or by a walk that is then remembered. */
    method SettingOf(r: Registry, t: seq<byte>) returns (setting: Option<bool>)
      requires Valid()
      modifies this
      ensures Valid() && setting == Consult(old(State()), r, t) && State() == PolicyCache.Remember(old(State()), r, t)
    {
      hide Setting, Split, Less;
      if root == None {
        return None;
      }
      AsMapExact(entries);
      var at, found := Search(entries, t);
      if found {
        return entries[at].setting;
      }
      setting := None;
      if r.events.Some? && r.events.value.id == root.value {
        setting := Resolve(r.events.value.tree, Split(t));
      }
      Remember(t, setting);
    }

    /** `remember`: a full cache is cleared first. */
    method Remember(t: seq<byte>, setting: Option<bool>)
      requires Valid() && root.Some? && t !in AsMap(entries)
      modifies this
      ensures Valid() && |entries| <= old(|entries|) + 1 && (old(|entries|) <= 4096 ==> |entries| <= 4096)
      ensures var cache := old(AsMap(entries));
        State() == old(State()).(cache := (if |cache| >= 4096 then map[] else cache)[t := setting])
    {
      hide Less, Sorted, Position, Keys, AsMap;
      AsMapExact(entries);
      if |entries| >= CACHE_MAX {
        entries := [];
      }
      EmptyMap();
      AsMapExact(entries);
      var at, found := Search(entries, t);
      PositionInside(entries, t, at);
      InsertSorted(entries, at, Entry(t, setting));
      InsertMaps(entries, at, Entry(t, setting));
      entries := Insert(entries, at, Entry(t, setting));
    }

    /** `enabled`. */
    method IsEnabled(r: Registry, answers: seq<ReadResult>, deleted: nat, t: seq<byte>, tier: nat) returns (on: Option<bool>)
      requires Valid()
      modifies this
      ensures Valid() && on == Answer(old(State()), r, answers, deleted, t, tier)
      ensures State() == After(old(State()), r, answers, deleted, t, tier)
      ensures !WellFormed(t) ==> on == None
      ensures WellFormed(t) ==> Decided(tier, Consult(Refresh(old(State()), r, answers, deleted), r, t), on)
    {
      hide Split, Refresh, Consult, PolicyCache.Remember, WellFormed, Decided;
      AnswerExact(State(), r, answers, deleted, t, tier);
      var segs := Segments(t);
      if segs == None {
        return None;
      }
      if tier == ESSENTIAL {
        return Some(true);
      }
      if Decide(tier, None) == None {
        return None;
      }
      RefreshFrom(r, answers, deleted);
      var setting := SettingOf(r, t);
      return Decide(tier, setting);
    }
  }
}
