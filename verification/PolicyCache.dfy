/**
 * The emission-policy handle over a changing registry: what it watches, what it caches, and how old
 * an answer can be.
 */
module PolicyCache {
  import opened Bytes
  import opened PolicyTree
  import opened PolicyWatch

  const UNWATCHED_TTL := 1_000_000_000
  const CACHE_MAX := 4096
  const U64_MAX := 0xffff_ffff_ffff_ffff

  // ---- the registry ----

  /** The `Events` key: which key it is (a key created anew is another one) and what it holds. */
  datatype Events = Events(id: nat, tree: Key)

  /** A key above `Events`: absent, there but refused to us, or watchable. */
  datatype Above = Missing | Closed | Watchable

  /**
   * The registry at an instant. `admits`: opening `Events` succeeds or says that it does not exist,
   * rather than failing otherwise. `arms`: a watch on it can be set up.
   */
  datatype Registry = Registry(
    now: nat, events: Option<Events>, admits: bool, arms: bool, generic: Above, machine: Above)

  predicate WellShaped(r: Registry) {
    (r.events.Some? ==> !r.generic.Missing?) && (!r.generic.Missing? ==> !r.machine.Missing?)
  }

  /** The setting of a direct walk of the tree. */
  function TreeSetting(r: Registry, segs: seq<seq<byte>>): Option<bool> {
    if r.events.None? then None else Setting(r.events.value.tree, segs)
  }

  /** The open key `id` is still the `Events` of the registry. */
  predicate Live(r: Registry, id: nat) {
    r.events.Some? && r.events.value.id == id
  }

  /** The walk from an open key; a deleted one has no value and no children. */
  function OpenSetting(r: Registry, id: nat, segs: seq<seq<byte>>): Option<bool> {
    if Live(r, id) then TreeSetting(r, segs) else None
  }

  // ---- the handle ----

  datatype Ancestor = Generic | Machine

  datatype Handle = Handle(
    root: Option<nat>, rootWatched: bool, ancestor: Option<Ancestor>, retryAt: nat,
    cache: map<seq<byte>, Option<bool>>)

  predicate Watched(h: Handle) {
    h.rootWatched || h.ancestor.Some?
  }

  function WatchableAncestor(r: Registry): Option<Ancestor> {
    if r.generic.Watchable? then Some(Generic) else if r.machine.Watchable? then Some(Machine) else None
  }

  function RetryAt(now: nat): nat {
    if now + UNWATCHED_TTL > U64_MAX then U64_MAX else now + UNWATCHED_TTL
  }

  /** `establish`, in a registry that does not change meanwhile. */
  function Establish(retryAt: nat, r: Registry): Handle {
    if r.admits && r.events.Some? then
      Handle(Some(r.events.value.id), r.arms, None, if r.arms then retryAt else RetryAt(r.now), map[])
    else
      var above := if r.admits then WatchableAncestor(r) else None;
      Handle(None, false, above, if above.Some? then retryAt else RetryAt(r.now), map[])
  }

  /** Whether `refresh` starts over. */
  predicate StartsOver(h: Handle, r: Registry, answers: seq<ReadResult>, deleted: nat) {
    if Watched(h) then
      var news := Drained(answers, deleted);
      news.gone || (news.changed && h.ancestor.Some?)
    else r.now >= h.retryAt
  }

  function Refresh(h: Handle, r: Registry, answers: seq<ReadResult>, deleted: nat): Handle {
    if StartsOver(h, r, answers, deleted) then Establish(h.retryAt, r)
    else if Watched(h) && Drained(answers, deleted).changed then h.(cache := map[])
    else h
  }

  function Consult(h: Handle, r: Registry, t: seq<byte>): Option<bool> {
    if h.root.None? then None
    else if t in h.cache then h.cache[t]
    else OpenSetting(r, h.root.value, Split(t))
  }

  function Remember(h: Handle, r: Registry, t: seq<byte>): Handle {
    if h.root.None? || t in h.cache then h
    else h.(cache := (if |h.cache| >= CACHE_MAX then map[] else h.cache)[t := OpenSetting(r, h.root.value, Split(t))])
  }

  /** The query reaches the registry: its arguments are good and the type is not essential. */
  predicate Consults(t: seq<byte>, tier: nat) {
    WellFormed(t) && tier in {STANDARD, VERBOSE, DEBUG}
  }

  /** The answer of `enabled`; none is `EINVAL`. */
  function Answer(h: Handle, r: Registry, answers: seq<ReadResult>, deleted: nat, t: seq<byte>, tier: nat): Option<bool> {
    if !WellFormed(t) then None
    else if Consults(t, tier) then Decide(tier, Consult(Refresh(h, r, answers, deleted), r, t))
    else Decide(tier, None)
  }

  /**
   * What `enabled` answers: nothing for a malformed type or a tier above 3, and otherwise what the tier
   * makes of the setting the refreshed handle finds, which an essential type does not ask for.
   */
  lemma AnswerExact(h: Handle, r: Registry, answers: seq<ReadResult>, deleted: nat, t: seq<byte>, tier: nat)
    ensures var answer := Answer(h, r, answers, deleted, t, tier);
      && (!WellFormed(t) ==> answer == None)
      && (WellFormed(t) ==> Decided(tier, Consult(Refresh(h, r, answers, deleted), r, t), answer))
  {
    hide WellFormed, Consult, Refresh;
    DecideDecides(tier, Consult(Refresh(h, r, answers, deleted), r, t), Answer(h, r, answers, deleted, t, tier));
  }

  function After(h: Handle, r: Registry, answers: seq<ReadResult>, deleted: nat, t: seq<byte>, tier: nat): Handle {
    if Consults(t, tier) then Remember(Refresh(h, r, answers, deleted), r, t) else h
  }

  // ---- runs ----

  /** A handle in use: the records its watch has queued, the registry so far, and the index in it of the last `Establish`. */
  datatype System = System(h: Handle, queue: seq<Record>, past: seq<Registry>, since: nat)

  /** The registry now. */
  function Current(s: System): Registry
    requires s.past != []
  {
    s.past[|s.past| - 1]
  }

  datatype Step =
    | Change(to: Registry, records: seq<Record>)
    | Ask(eventType: seq<byte>, tier: nat, answers: seq<ReadResult>)

  /** One registry operation creates `Events`, deletes it, or keeps it the same key. */
  predicate OneOperation(r: Registry, r': Registry) {
    r.events.Some? && r'.events.Some? ==> r.events.value.id == r'.events.value.id
  }

  /**
   * A watch queues a record for each change it covers: the whole of `Events` for the root watch, the
   * subkeys and the existence of the key itself for an ancestor watch.
   */
  predicate Notifies(h: Handle, r: Registry, r': Registry, records: seq<Record>, deleted: nat) {
    && (h.rootWatched && h.root.Some? && Live(r, h.root.value) ==>
          if Live(r', h.root.value) then (r.events != r'.events ==> records != [])
          else HoldsSelfDelete(records, deleted))
    && (h.ancestor == Some(Generic) ==>
          (r.events.Some? != r'.events.Some? || r'.generic.Missing? ==> records != []))
    && (h.ancestor == Some(Machine) ==>
          (r.generic.Missing? != r'.generic.Missing? || r'.machine.Missing? ==> records != []))
  }

  predicate Legal(s: System, step: Step, deleted: nat)
    requires s.past != []
  {
    match step
    case Change(to, records) =>
      && WellShaped(to) && OneOperation(Current(s), to) && Current(s).now <= to.now
      && AllFit(records) && Notifies(s.h, Current(s), to, records, deleted)
    case Ask(_, _, answers) => Watched(s.h) ==> Drains(s.queue, answers)
  }

  function Next(s: System, step: Step, deleted: nat): (s': System)
    requires s.past != []
    ensures s'.past != []
  {
    match step
    case Change(to, records) =>
      System(s.h, if Watched(s.h) then s.queue + records else [], s.past + [to], s.since)
    case Ask(t, tier, answers) =>
      if !Consults(t, tier) then s
      else
        System(After(s.h, Current(s), answers, deleted, t, tier), [], s.past,
               if StartsOver(s.h, Current(s), answers, deleted) then |s.past| - 1 else s.since)
  }

  /** `peios_event_policy_open`. */
  function Open(r: Registry): System {
    System(Establish(0, r), [], [r], 0)
  }

  predicate LegalRun(s: System, steps: seq<Step>, deleted: nat)
    requires s.past != []
    decreases |steps|
  {
    steps == [] || (Legal(s, steps[0], deleted) && LegalRun(Next(s, steps[0], deleted), steps[1..], deleted))
  }

  function Run(s: System, steps: seq<Step>, deleted: nat): (s': System)
    requires s.past != []
    ensures s'.past != []
    decreases |steps|
  {
    if steps == [] then s else Run(Next(s, steps[0], deleted), steps[1..], deleted)
  }

  // ---- what every step keeps ----

  predicate PastOk(s: System) {
    && s.since < |s.past|
    && (forall i :: 0 <= i < |s.past| ==> WellShaped(s.past[i]))
    && (forall i, j :: 0 <= i <= j < |s.past| ==> s.past[i].now <= s.past[j].now)
    && AllFit(s.queue)
  }

  predicate HandleOk(h: Handle) {
    && (h.rootWatched ==> h.root.Some? && h.ancestor.None?)
    && (h.root.None? ==> h.cache == map[])
    && (h.ancestor.Some? ==> h.root.None?)
  }

  /** Nothing queued means nothing changed since the watch last spoke. */
  predicate WatchOk(s: System, deleted: nat)
    requires PastOk(s) && HandleOk(s.h)
  {
    && (s.h.rootWatched ==>
          && (Live(Current(s), s.h.root.value) || HoldsSelfDelete(s.queue, deleted))
          && (s.queue == [] ==> CacheCurrent(s.h.cache, Current(s))))
    && (s.h.ancestor == Some(Generic) && s.queue == [] ==> Current(s).events.None?)
    && (s.h.ancestor == Some(Machine) ==> !s.past[s.since].generic.Watchable?)
    && (s.h.ancestor.Some? ==> s.past[s.since].events.None?)
    && (s.h.ancestor == Some(Machine) && s.queue == [] ==>
          (Current(s).generic.Missing? <==> s.past[s.since].generic.Missing?))
  }

  predicate CacheCurrent(cache: map<seq<byte>, Option<bool>>, r: Registry) {
    forall t :: t in cache ==> cache[t] == TreeSetting(r, Split(t))
  }

  /** The setting is what a walk would have read then, or what an unreadable `Events` gives. */
  predicate Reflects(r: Registry, segs: seq<seq<byte>>, setting: Option<bool>) {
    setting == TreeSetting(r, segs) || (!r.admits && setting == None)
  }

  predicate ReadSince(past: seq<Registry>, since: nat, segs: seq<seq<byte>>, setting: Option<bool>) {
    exists j :: since <= j < |past| && Reflects(past[j], segs, setting)
  }

  /** At some index from `since` on, `Events` was missing or refused. */
  predicate AbsentSince(past: seq<Registry>, since: nat) {
    exists j :: since <= j < |past| && (past[j].events.None? || !past[j].admits)
  }

  predicate UnwatchedOk(s: System)
    requires PastOk(s) && HandleOk(s.h)
  {
    !Watched(s.h) ==>
      && s.h.retryAt <= s.past[s.since].now + UNWATCHED_TTL
      && (s.h.root.None? ==> AbsentSince(s.past, s.since))
      && (s.h.root.Some? ==> Live(Current(s), s.h.root.value) || AbsentSince(s.past, s.since))
      && forall t :: t in s.h.cache ==> ReadSince(s.past, s.since, Split(t), s.h.cache[t])
  }

  predicate Inv(s: System, deleted: nat) {
    PastOk(s) && HandleOk(s.h) && WatchOk(s, deleted) && UnwatchedOk(s)
  }

  // ---- establishing ----

  lemma Established(retryAt: nat, past: seq<Registry>, deleted: nat)
    requires past != []
    requires forall i :: 0 <= i < |past| ==> WellShaped(past[i])
    requires forall i, j :: 0 <= i <= j < |past| ==> past[i].now <= past[j].now
    ensures Inv(System(Establish(retryAt, past[|past| - 1]), [], past, |past| - 1), deleted)
  {
    var r := past[|past| - 1];
    var s := System(Establish(retryAt, r), [], past, |past| - 1);
    assert s.h.root.None? && !Watched(s.h) ==> r.events.None? || !r.admits;
    assert r == past[|past| - 1];
  }

  lemma OpenInv(r: Registry, deleted: nat)
    requires WellShaped(r)
    ensures Inv(Open(r), deleted)
  {
    Established(0, [r], deleted);
  }

  // ---- a change ----

  lemma ChangeKeepsPast(s: System, to: Registry, records: seq<Record>, deleted: nat)
    requires PastOk(s) && HandleOk(s.h) && Legal(s, Change(to, records), deleted)
    ensures PastOk(Next(s, Change(to, records), deleted))
  {
    var s' := Next(s, Change(to, records), deleted);
    forall i, j | 0 <= i <= j < |s'.past| ensures s'.past[i].now <= s'.past[j].now {
      assert i < |s.past| ==> s.past[i].now <= Current(s).now;
    }
  }

  lemma ChangeKeepsWatch(s: System, to: Registry, records: seq<Record>, deleted: nat)
    requires Inv(s, deleted) && Legal(s, Change(to, records), deleted) && Watched(s.h)
    requires PastOk(Next(s, Change(to, records), deleted))
    ensures WatchOk(Next(s, Change(to, records), deleted), deleted)
  {
    hide Setting, SelfDelete, Fits;
    var s' := Next(s, Change(to, records), deleted);
    assert Current(s') == to;
    SelfDeleteSplits(s.queue, records, deleted);
    assert s'.queue == [] ==> s.queue == [] && records == [];
    assert s'.past[s'.since] == s.past[s.since];
    if s.h.rootWatched && s'.queue == [] {
      assert !HoldsSelfDelete(records, deleted);
      assert !HoldsSelfDelete(s.queue, deleted);
      assert to.events == Current(s).events;
    }
  }

  lemma ChangeKeepsUnwatched(s: System, to: Registry, records: seq<Record>, deleted: nat)
    requires Inv(s, deleted) && Legal(s, Change(to, records), deleted) && !Watched(s.h)
    requires PastOk(Next(s, Change(to, records), deleted))
    ensures UnwatchedOk(Next(s, Change(to, records), deleted))
  {
    hide Reflects, Split;
    var s' := Next(s, Change(to, records), deleted);
    assert forall j :: 0 <= j < |s.past| ==> s'.past[j] == s.past[j];
    assert s'.past[|s.past|] == to;
    if AbsentSince(s.past, s.since) {
      AbsentStill(s.past, to, s.since);
    }
    forall t | t in s.h.cache ensures ReadSince(s'.past, s.since, Split(t), s.h.cache[t]) {
      ReadStill(s.past, to, s.since, Split(t), s.h.cache[t]);
    }
  }

  lemma AbsentStill(past: seq<Registry>, to: Registry, since: nat)
    requires AbsentSince(past, since)
    ensures AbsentSince(past + [to], since)
  {
    var j :| since <= j < |past| && (past[j].events.None? || !past[j].admits);
    assert (past + [to])[j] == past[j];
  }

  lemma ReadStill(past: seq<Registry>, to: Registry, since: nat, segs: seq<seq<byte>>, setting: Option<bool>)
    requires ReadSince(past, since, segs, setting)
    ensures ReadSince(past + [to], since, segs, setting)
  {
    hide Reflects;
    var j :| since <= j < |past| && Reflects(past[j], segs, setting);
    assert (past + [to])[j] == past[j];
  }

  // ---- a query ----

  /** After the refresh the handle is current, if it watches, and recent, if it does not. */
  lemma RefreshKeepsInv(s: System, answers: seq<ReadResult>, deleted: nat)
    requires Inv(s, deleted) && (Watched(s.h) ==> Drains(s.queue, answers))
    ensures Inv(Refreshed(s, answers, deleted), deleted)
  {
    hide Setting, SelfDelete, Fits, Drained, Drains, Reflects, Establish;
    if StartsOver(s.h, Current(s), answers, deleted) {
      Established(s.h.retryAt, s.past, deleted);
    } else if Watched(s.h) {
      DrainMissesNothing(s.queue, answers, deleted);
    }
  }

  function Refreshed(s: System, answers: seq<ReadResult>, deleted: nat): System
    requires s.past != []
  {
    System(Refresh(s.h, Current(s), answers, deleted), [], s.past,
           if StartsOver(s.h, Current(s), answers, deleted) then |s.past| - 1 else s.since)
  }

  /** When `Machine` was chosen, `Generic` was not there with its watch refused. */
  predicate NearestWatched(s: System)
    requires s.since < |s.past|
  {
    s.h.ancestor == Some(Machine) ==> !s.past[s.since].generic.Closed?
  }

  /** What the handle opened is the nearest key there was, or was opened just now. */
  predicate Trusted(s: System)
    requires s.since < |s.past|
  {
    NearestWatched(s) || s.since == |s.past| - 1
  }

  /** What an up-to-date handle answers from. */
  lemma ConsultSound(s: System, t: seq<byte>, deleted: nat)
    requires Inv(s, deleted) && s.queue == []
    ensures var setting := Consult(s.h, Current(s), t);
      && (Watched(s.h) && Trusted(s) ==> setting == TreeSetting(Current(s), Split(t)))
      && (!Watched(s.h) ==> ReadSince(s.past, s.since, Split(t), setting))
  {
    hide Setting, SelfDelete, Split;
    assert !HoldsSelfDelete(s.queue, deleted);
    assert WellShaped(s.past[|s.past| - 1]);
    assert s.h.ancestor.Some? ==> s.h.ancestor.value.Generic? || s.h.ancestor.value.Machine?;
    if !Watched(s.h) && !(s.h.root.Some? && t in s.h.cache) {
      if s.h.root.Some? && Live(Current(s), s.h.root.value) {
        assert Reflects(s.past[|s.past| - 1], Split(t), Consult(s.h, Current(s), t));
      } else {
        AbsentReads(s.past, s.since, Split(t));
      }
    }
  }

  lemma AbsentReads(past: seq<Registry>, since: nat, segs: seq<seq<byte>>)
    requires AbsentSince(past, since)
    ensures ReadSince(past, since, segs, None)
  {
    var j :| since <= j < |past| && (past[j].events.None? || !past[j].admits);
    assert Reflects(past[j], segs, None);
  }

  lemma RememberKeepsInv(s: System, t: seq<byte>, deleted: nat)
    requires Inv(s, deleted) && s.queue == []
    ensures Inv(s.(h := Remember(s.h, Current(s), t)), deleted)
  {
    hide Setting, SelfDelete, Split, Reflects;
    ConsultSound(s, t, deleted);
    assert !HoldsSelfDelete(s.queue, deleted);
    var s' := s.(h := Remember(s.h, Current(s), t));
    forall u | u in s'.h.cache && u != t ensures u in s.h.cache && s'.h.cache[u] == s.h.cache[u] {}
  }

  // ---- the guarantees ----

  lemma StepKeepsInv(s: System, step: Step, deleted: nat)
    requires Inv(s, deleted) && Legal(s, step, deleted)
    ensures Inv(Next(s, step, deleted), deleted)
  {
    hide WatchOk, UnwatchedOk, Refresh, StartsOver, Drains, Remember;
    match step
    case Change(to, records) =>
      ChangeKeepsPast(s, to, records, deleted);
      if Watched(s.h) {
        ChangeKeepsWatch(s, to, records, deleted);
        WatchedIsWatched(Next(s, step, deleted));
      } else {
        ChangeKeepsUnwatched(s, to, records, deleted);
        UnwatchedIsUnwatched(Next(s, step, deleted), deleted);
      }
    case Ask(t, tier, answers) =>
      if Consults(t, tier) {
        RefreshKeepsInv(s, answers, deleted);
        RememberKeepsInv(Refreshed(s, answers, deleted), t, deleted);
      }
  }

  lemma WatchedIsWatched(s: System)
    requires PastOk(s) && HandleOk(s.h) && Watched(s.h)
    ensures UnwatchedOk(s)
  {
  }

  lemma UnwatchedIsUnwatched(s: System, deleted: nat)
    requires PastOk(s) && HandleOk(s.h) && !Watched(s.h)
    ensures WatchOk(s, deleted)
  {
  }

  lemma {:induction false} RunKeepsInv(s: System, steps: seq<Step>, deleted: nat)
    requires s.past != [] && Inv(s, deleted) && LegalRun(s, steps, deleted)
    ensures Inv(Run(s, steps, deleted), deleted)
    decreases |steps|
  {
    hide Inv, Legal, Next;
    if steps != [] {
      StepKeepsInv(s, steps[0], deleted);
      RunKeepsInv(Next(s, steps[0], deleted), steps[1..], deleted);
    }
  }

  /** A registry less than a second old that explains the answer. */
  predicate Explains(r: Registry, now: nat, t: seq<byte>, tier: nat, answer: Option<bool>) {
    && now < r.now + 1_000_000_000
    && (Decided(tier, TreeSetting(r, Split(t)), answer) || (!r.admits && Decided(tier, None, answer)))
  }

  /**
   * After every run, each query answers by the tree as it is now, if the handle then watches what
   * it can trust, and by a registry less than a second old, if it watches nothing.
   */
  lemma EveryDecision(r: Registry, steps: seq<Step>, deleted: nat, t: seq<byte>, tier: nat, answers: seq<ReadResult>)
    requires WellShaped(r) && LegalRun(Open(r), steps, deleted)
    requires var s := Run(Open(r), steps, deleted); Legal(s, Ask(t, tier, answers), deleted)
    requires Consults(t, tier)
    ensures var s := Run(Open(r), steps, deleted);
      var s' := Next(s, Ask(t, tier, answers), deleted);
      var answer := Answer(s.h, Current(s), answers, deleted, t, tier);
      && s'.since < |s'.past|
      && (Watched(s'.h) && Trusted(s') ==> Decided(tier, TreeSetting(Current(s), Split(t)), answer))
      && (!Watched(s'.h) ==> exists j :: 0 <= j < |s.past| && Explains(s.past[j], Current(s).now, t, tier, answer))
  {
    hide Inv, Consults, Split, LegalRun, Run, Drains, Refresh, StartsOver, Establish;
    OpenInv(r, deleted);
    RunKeepsInv(Open(r), steps, deleted);
    OneDecision(Run(Open(r), steps, deleted), deleted, t, tier, answers);
  }

  lemma OneDecision(s: System, deleted: nat, t: seq<byte>, tier: nat, answers: seq<ReadResult>)
    requires Inv(s, deleted) && Legal(s, Ask(t, tier, answers), deleted) && Consults(t, tier)
    ensures var s' := Next(s, Ask(t, tier, answers), deleted);
      var answer := Answer(s.h, Current(s), answers, deleted, t, tier);
      && s'.since < |s'.past|
      && (Watched(s'.h) && Trusted(s') ==> Decided(tier, TreeSetting(Current(s), Split(t)), answer))
      && (!Watched(s'.h) ==> exists j :: 0 <= j < |s.past| && Explains(s.past[j], Current(s).now, t, tier, answer))
  {
    hide Split, Setting, Drains, WatchOk, UnwatchedOk, Refresh, StartsOver, Decide, Decided, Explains, Consult;
    RefreshKeepsInv(s, answers, deleted);
    var u := Refreshed(s, answers, deleted);
    var setting := Consult(u.h, Current(s), t);
    DecideDecides(tier, setting, Decide(tier, setting));
    assert Answer(s.h, Current(s), answers, deleted, t, tier) == Decide(tier, Consult(u.h, Current(s), t));
    ConsultSound(u, t, deleted);
    if !Watched(u.h) {
      RecentDecision(s, deleted, t, tier, answers);
    }
  }

  lemma RecentDecision(s: System, deleted: nat, t: seq<byte>, tier: nat, answers: seq<ReadResult>)
    requires Inv(s, deleted) && (Watched(s.h) ==> Drains(s.queue, answers))
    requires !Watched(Refreshed(s, answers, deleted).h)
    ensures var answer := Decide(tier, Consult(Refreshed(s, answers, deleted).h, Current(s), t));
      exists j :: 0 <= j < |s.past| && Explains(s.past[j], Current(s).now, t, tier, answer)
  {
    hide Split, Setting, Drains, WatchOk, Refresh, StartsOver, Decide, Decided, Consult;
    RefreshKeepsInv(s, answers, deleted);
    var u := Refreshed(s, answers, deleted);
    ConsultSound(u, t, deleted);
    var setting := Consult(u.h, Current(s), t);
    DecideDecides(tier, setting, Decide(tier, setting));
    var j :| u.since <= j < |u.past| && Reflects(u.past[j], Split(t), setting);
    RecentlyOpened(s, answers, deleted);
    assert s.past[u.since].now <= s.past[j].now;
    assert Explains(s.past[j], Current(s).now, t, tier, Decide(tier, setting));
  }

  /** A handle that watches nothing trusts its keys for less than a second. */
  lemma RecentlyOpened(s: System, answers: seq<ReadResult>, deleted: nat)
    requires Inv(s, deleted) && (Watched(s.h) ==> Drains(s.queue, answers))
    ensures var u := Refreshed(s, answers, deleted);
      !Watched(u.h) ==> u.since < |s.past| && Current(s).now < s.past[u.since].now + UNWATCHED_TTL
  {
    hide WatchOk, Drained, Drains;
  }

  /** A handle that could watch nothing looks again after a second, by a clock that stops at its end, and not before. */
  lemma RetriesExact(retryAt: nat, r: Registry, r': Registry, answers: seq<ReadResult>, deleted: nat)
    requires !Watched(Establish(retryAt, r))
    ensures StartsOver(Establish(retryAt, r), r', answers, deleted) <==>
      r'.now >= r.now + 1_000_000_000 || r'.now >= 0xffff_ffff_ffff_ffff
  {
  }

  // ---- when watched decisions stay current ----

  /** A query made now, if the handle then watches, answers by the tree as it is. */
  ghost predicate DecidesCurrent(s: System, deleted: nat, t: seq<byte>, tier: nat, answers: seq<ReadResult>)
    requires s.past != []
  {
    Watched(Next(s, Ask(t, tier, answers), deleted).h) ==>
      Decided(tier, TreeSetting(Current(s), Split(t)), Answer(s.h, Current(s), answers, deleted, t, tier))
  }

  /** After any one change, whatever it is, every watched decision is current. */
  ghost predicate StaysCurrent(s: System, deleted: nat)
    requires s.past != []
  {
    forall step: Step, t: seq<byte>, tier: nat, answers: seq<ReadResult> ::
      step.Change? && Legal(s, step, deleted) && Consults(t, tier)
      && Legal(Next(s, step, deleted), Ask(t, tier, answers), deleted)
      ==> DecidesCurrent(Next(s, step, deleted), deleted, t, tier, answers)
  }

  /** Unless news is waiting, it takes a handle on the nearest key there was. */
  predicate HearsChanges(s: System)
    requires s.since < |s.past|
  {
    s.queue == [] ==> NearestWatched(s)
  }

  /** Watched decisions stay current over every change exactly when the handle hears of it. */
  lemma StaysCurrentExact(s: System, deleted: nat)
    requires Inv(s, deleted)
    ensures StaysCurrent(s, deleted) <==> HearsChanges(s)
  {
    hide Inv, Legal, Next, DecidesCurrent, Consults;
    InvShape(s, deleted);
    if HearsChanges(s) {
      forall step: Step, t: seq<byte>, tier: nat, answers: seq<ReadResult>
        | step.Change? && Legal(s, step, deleted) && Consults(t, tier)
          && Legal(Next(s, step, deleted), Ask(t, tier, answers), deleted)
        ensures DecidesCurrent(Next(s, step, deleted), deleted, t, tier, answers)
      {
        HeardDecision(s, step, deleted, t, tier, answers);
      }
    } else {
      OneLetterType();
      var step := StaleAncestor(s, deleted, LETTER);
      assert Consults(LETTER, STANDARD) by { LetterConsults(); }
      assert !DecidesCurrent(Next(s, step, deleted), deleted, LETTER, STANDARD, [Nothing]);
    }
  }

  lemma InvShape(s: System, deleted: nat)
    requires Inv(s, deleted)
    ensures s.since < |s.past| && PastOk(s) && HandleOk(s.h)
  {
  }

  lemma LetterConsults()
    ensures Consults(LETTER, STANDARD)
  {
    OneLetterType();
  }

  lemma HeardDecision(s: System, step: Step, deleted: nat, t: seq<byte>, tier: nat, answers: seq<ReadResult>)
    requires s.since < |s.past| && Inv(s, deleted) && HearsChanges(s)
    requires step.Change? && Legal(s, step, deleted)
    requires Consults(t, tier) && Legal(Next(s, step, deleted), Ask(t, tier, answers), deleted)
    ensures DecidesCurrent(Next(s, step, deleted), deleted, t, tier, answers)
  {
    hide Inv, Split, Drains, Drained, Establish, Notifies, OneOperation, Decided, TreeSetting, Consult, Explains;
    StepKeepsInv(s, step, deleted);
    var s1 := Next(s, step, deleted);
    OneDecision(s1, deleted, t, tier, answers);
    if !StartsOver(s1.h, Current(s1), answers, deleted) && s.h.ancestor == Some(Machine) {
      InvShape(s1, deleted);
      DrainMissesNothing(s1.queue, answers, deleted);
      assert s1.queue == [] && s.queue == [];
      assert s1.past[s1.since] == s.past[s.since];
    }
  }

  const OFF := Key(Some(RegValue(REG_DWORD, ToLE(0, 4))), map[])

  /** `Events` there with everything switched off, under the id it has or, if it is new, under 0. */
  function SwitchedOff(r: Registry): Registry {
    r.(events := Some(Events(if r.events.Some? then r.events.value.id else 0, OFF)))
  }

  /**
   * From every handle that does not hear of changes, and for every event type: `Events` switched off
   * under the unwatched `Generic` queues no record, and the next decision is wrong.
   */
  lemma StaleAncestor(s: System, deleted: nat, t: seq<byte>) returns (step: Step)
    requires Inv(s, deleted) && !HearsChanges(s) && WellFormed(t)
    ensures step == Change(SwitchedOff(Current(s)), []) && Legal(s, step, deleted)
    ensures Legal(Next(s, step, deleted), Ask(t, STANDARD, [Nothing]), deleted)
    ensures !DecidesCurrent(Next(s, step, deleted), deleted, t, STANDARD, [Nothing])
  {
    hide Split;
    var to := SwitchedOff(Current(s));
    step := Change(to, []);
    var s1 := Next(s, step, deleted);
    assert WellShaped(Current(s)) && s.queue + [] == s.queue;
    assert Current(s1) == to;
    OffEverywhere(OFF, Split(t), |Split(t)|);
    assert TreeSetting(to, Split(t)) == Some(false);
    StaleAnswer(s1, deleted, t);
  }

  lemma StaleAnswer(s: System, deleted: nat, t: seq<byte>)
    requires s.past != [] && WellFormed(t) && HandleOk(s.h) && s.h.ancestor == Some(Machine) && s.queue == []
    ensures Legal(s, Ask(t, STANDARD, [Nothing]), deleted)
    ensures Watched(Next(s, Ask(t, STANDARD, [Nothing]), deleted).h)
    ensures Answer(s.h, Current(s), [Nothing], deleted, t, STANDARD) == Some(true)
  {
    hide Split, WellFormed;
    assert Drained([Nothing], deleted) == News(false, false);
    assert Refresh(s.h, Current(s), [Nothing], deleted) == s.h;
  }

  /** A handle opened on this registry takes the watch on `Machine` for one on a `Generic` that is there. */
  predicate OverlooksGeneric(r: Registry) {
    r.admits && r.events.None? && r.generic.Closed? && r.machine.Watchable?
  }

  /** Which registries a fresh handle hears of, told before it is opened. */
  lemma OpenStaysCurrentExact(r: Registry, deleted: nat)
    requires WellShaped(r)
    ensures StaysCurrent(Open(r), deleted) <==> !OverlooksGeneric(r)
  {
    OpenInv(r, deleted);
    StaysCurrentExact(Open(r), deleted);
  }

  /** One such registry, and the decision that goes wrong in it. */
  lemma FreshHandleGoesStale(deleted: nat, t: seq<byte>)
    requires WellFormed(t)
    ensures var r := Registry(0, None, true, true, Closed, Watchable);
      var step := Change(SwitchedOff(r), []);
      && WellShaped(r) && Legal(Open(r), step, deleted)
      && Legal(Next(Open(r), step, deleted), Ask(t, STANDARD, [Nothing]), deleted)
      && !DecidesCurrent(Next(Open(r), step, deleted), deleted, t, STANDARD, [Nothing])
  {
    hide WellFormed, Legal, DecidesCurrent, Inv;
    var r := Registry(0, None, true, true, Closed, Watchable);
    OpenInv(r, deleted);
    var step := StaleAncestor(Open(r), deleted, t);
  }

  lemma {:induction false} OffEverywhere(k: Key, segs: seq<seq<byte>>, n: nat)
    requires n <= |segs| && k == OFF
    ensures Deepest(k, segs, n) == Some(false)
    decreases n
  {
    EnabledExact(k.value.value, false);
    if n > 0 {
      OffEverywhere(k, segs, n - 1);
      assert segs[..n][0] !in k.children;
    }
  }
}
