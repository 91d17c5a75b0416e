/** Registry watch records: their layout, and what one read of them tells the policy handle. */
module PolicyWatch {
  import opened Bytes

  const MIN_SIZE := 8

  /** A watch record: what changed, the name it happened to, and where below the watched key. */
  datatype Record = Record(kind: nat, name: seq<byte>, path: Option<seq<seq<byte>>>)

  datatype News = News(changed: bool, gone: bool)

  function PathBytes(path: seq<seq<byte>>): seq<byte> {
    if path == [] then [] else ToLE(|path[0]|, 2) + path[0] + PathBytes(path[1..])
  }

  function Tail(r: Record): seq<byte> {
    if r.path.Some? then ToLE(|r.path.value|, 2) + PathBytes(r.path.value) else []
  }

  function RecordSize(r: Record): (n: nat)
    ensures n >= MIN_SIZE
  {
    MIN_SIZE + |r.name| + |Tail(r)|
  }

  predicate Fits(r: Record) {
    r.kind < 0x1_0000 && |r.name| < 0x1_0000 && RecordSize(r) < 0x1_0000_0000
    && (r.path.Some? ==> |r.path.value| < 0x1_0000)
  }

  function EncodeRecord(r: Record): (s: seq<byte>)
    ensures |s| == RecordSize(r)
  {
    ToLE(RecordSize(r), 4) + ToLE(r.kind, 2) + ToLE(|r.name|, 2) + r.name + Tail(r)
  }

  function EncodeRecords(rs: seq<Record>): seq<byte> {
    if rs == [] then [] else EncodeRecord(rs[0]) + EncodeRecords(rs[1..])
  }

  /** The record reports that the watched key itself was deleted; `deleted` is that record kind. */
  predicate SelfDelete(r: Record, deleted: nat) {
    r.kind == deleted && (r.path == None || r.path == Some([]))
  }

  // ---- reading ----

  function U16At(s: seq<byte>, at: nat): nat {
    if at + 2 <= |s| then FromLE(s[at..at + 2]) else 0
  }

  /** What one whole record says about the watched key. */
  predicate SaysGone(rec: seq<byte>, deleted: nat) {
    U16At(rec, 4) == deleted && U16At(rec, 8 + U16At(rec, 6)) == 0
  }

  /**
   * On any bytes: the kind at 4 is the deletion, and where the path depth would be, after the name, there
   * is zero or nothing.
   */
  lemma RecordSaysGone(rec: seq<byte>, deleted: nat)
    requires |rec| >= 8
    ensures SaysGone(rec, deleted) <==>
      && Pair(rec, 4) == deleted
      && var at := 8 + Pair(rec, 6); at + 2 > |rec| || (rec[at] == 0 && rec[at + 1] == 0)
  {
    hide FromLE;
    PairIs(rec, 4);
    PairIs(rec, 6);
    var at := 8 + Pair(rec, 6);
    if at + 2 <= |rec| {
      PairIs(rec, at);
    }
  }

  function Pair(s: seq<byte>, at: nat): nat
    requires at + 2 <= |s|
  {
    (s[at] as int) + 256 * (s[at + 1] as int)
  }

  lemma PairIs(s: seq<byte>, at: nat)
    requires at + 2 <= |s|
    ensures U16At(s, at) == Pair(s, at)
  {
    var t := s[at..at + 2];
    assert t[1..][1..] == [];
    assert FromLE(t[1..]) == t[1];
  }

  /** The length field leads to a whole record. */
  predicate WholeRecord(s: seq<byte>) {
    |s| >= 4 && MIN_SIZE <= FromLE(s[..4]) <= |s|
  }

  function Classify(s: seq<byte>, deleted: nat): News
    decreases |s|
  {
    if s == [] then News(false, false)
    else if !WholeRecord(s) then News(false, true)
    else
      var n := FromLE(s[..4]);
      var more := Classify(s[n..], deleted);
      News(true, SaysGone(s[..n], deleted) || more.gone)
  }

  /** `classify_records`. */
  method ClassifyRecords(buf: seq<byte>, deleted: nat) returns (news: News)
    ensures news == Classify(buf, deleted)
  {
    news := News(false, false);
    var off := 0;
    while off < |buf|
      invariant off <= |buf|
      invariant var more := Classify(buf[off..], deleted);
        Classify(buf, deleted) == News(news.changed || more.changed, news.gone || more.gone)
    {
      hide SaysGone;
      var rec := buf[off..];
      if |rec| < 4 {
        news := news.(gone := true);
        break;
      }
      var total := FromLE(rec[..4]);
      if total < MIN_SIZE || total > |rec| {
        news := news.(gone := true);
        break;
      }
      assert rec[total..] == buf[off + total..];
      news := News(true, news.gone || SaysGone(rec[..total], deleted));
      off := off + total;
    }
  }

  // ---- a well-formed buffer ----

  lemma RecordFields(r: Record)
    requires Fits(r)
    ensures var s := EncodeRecord(r);
      FromLE(s[..4]) == RecordSize(r) && U16At(s, 4) == r.kind && U16At(s, 6) == |r.name|
      && s[8 + |r.name|..] == Tail(r)
  {
    hide ToLE, FromLE, Tail;
    PowValues();
    var s := EncodeRecord(r);
    LeRoundTrip(RecordSize(r), 4);
    LeRoundTrip(r.kind, 2);
    LeRoundTrip(|r.name|, 2);
    assert s[..4] == ToLE(RecordSize(r), 4) && s[4..6] == ToLE(r.kind, 2) && s[6..8] == ToLE(|r.name|, 2);
  }

  lemma SaysGoneExact(r: Record, deleted: nat)
    requires Fits(r)
    ensures SaysGone(EncodeRecord(r), deleted) <==> SelfDelete(r, deleted)
  {
    hide ToLE, FromLE, EncodeRecord;
    PowValues();
    RecordFields(r);
    var s, at := EncodeRecord(r), 8 + |r.name|;
    if r.path.Some? {
      var n := |r.path.value|;
      LeRoundTrip(n, 2);
      assert s[at..at + 2] == s[at..][..2] == ToLE(n, 2);
    }
  }

  /** A whole record at the front is classified, and then the rest. */
  lemma ClassifyFirst(rec: seq<byte>, more: seq<byte>, deleted: nat)
    requires |rec| >= MIN_SIZE && FromLE(rec[..4]) == |rec|
    ensures Classify(rec + more, deleted) == News(true, SaysGone(rec, deleted) || Classify(more, deleted).gone)
  {
    hide FromLE, SaysGone;
    var s := rec + more;
    assert s[..4] == rec[..4] && s[..|rec|] == rec && s[|rec|..] == more;
  }

  lemma FirstOrLater(rs: seq<Record>, deleted: nat)
    requires rs != []
    ensures HoldsSelfDelete(rs, deleted) <==> SelfDelete(rs[0], deleted) || HoldsSelfDelete(rs[1..], deleted)
  {
    hide SelfDelete;
    assert forall i :: 1 <= i < |rs| ==> rs[i] == rs[1..][i - 1];
    assert forall i :: 0 <= i < |rs[1..]| ==> rs[1..][i] == rs[i + 1];
  }

  /** Whole records are all seen, and a deletion of the watched key is told from any other. */
  lemma {:induction false} ClassifyExact(rs: seq<Record>, deleted: nat)
    requires AllFit(rs)
    ensures Classify(EncodeRecords(rs), deleted) == News(rs != [], HoldsSelfDelete(rs, deleted))
  {
    hide EncodeRecord, SaysGone, SelfDelete, Fits, FromLE, Classify, HoldsSelfDelete;
    if rs == [] {
      NothingQueued(deleted);
    } else {
      RecordFields(rs[0]);
      SaysGoneExact(rs[0], deleted);
      ClassifyFirst(EncodeRecord(rs[0]), EncodeRecords(rs[1..]), deleted);
      ClassifyExact(rs[1..], deleted);
      FirstOrLater(rs, deleted);
    }
  }

  lemma NothingQueued(deleted: nat)
    ensures Classify([], deleted) == News(false, false) && !HoldsSelfDelete([], deleted)
  {
  }

  // ---- draining ----

  /** One `read` of the watch: some queued records, nothing queued, a signal, or a failure. */
  datatype ReadResult = Batch(records: seq<Record>) | Nothing | Interrupted | Failed

  /** `answers` is one drain of a watch holding `queue`: batches in order, until nothing is left or it fails. */
  predicate Drains(queue: seq<Record>, answers: seq<ReadResult>)
    decreases |answers|
  {
    answers != [] &&
    match answers[0]
    case Batch(rs) => rs != [] && rs <= queue && Drains(queue[|rs|..], answers[1..])
    case Interrupted => Drains(queue, answers[1..])
    case Nothing => queue == [] && |answers| == 1
    case Failed => |answers| == 1
  }

  function Join(a: News, b: News): News {
    News(a.changed || b.changed, a.gone || b.gone)
  }

  /** The loop of `drain`: it stops early once the watched key is known to be gone. */
  function Drained(answers: seq<ReadResult>, deleted: nat): News
    decreases |answers|
  {
    if answers == [] then News(false, false)
    else
      match answers[0]
      case Batch(rs) =>
        var got := Classify(EncodeRecords(rs), deleted);
        if got.gone then got else Join(got, Drained(answers[1..], deleted))
      case Interrupted => Drained(answers[1..], deleted)
      case Nothing => News(false, false)
      case Failed => News(true, true)
  }

  /** `drain`, with the kernel's answers to its `read` calls given. */
  method Drain(answers: seq<ReadResult>, deleted: nat) returns (news: News)
    ensures news == Drained(answers, deleted)
  {
    news := News(false, false);
    var i := 0;
    while i < |answers|
      invariant i <= |answers| && !news.gone
      invariant Drained(answers, deleted) == Join(news, Drained(answers[i..], deleted))
    {
      hide Classify, EncodeRecords;
      assert answers[i..][0] == answers[i] && answers[i..][1..] == answers[i + 1..];
      match answers[i] {
        case Batch(rs) =>
          var got := ClassifyRecords(EncodeRecords(rs), deleted);
          news := Join(news, got);
          if news.gone {
            return;
          }
        case Interrupted =>
        case Nothing =>
          return;
        case Failed =>
          return News(true, true);
      }
      i := i + 1;
    }
  }

  predicate AllFit(rs: seq<Record>) {
    forall i :: 0 <= i < |rs| ==> Fits(rs[i])
  }

  predicate HoldsSelfDelete(rs: seq<Record>, deleted: nat) {
    exists i :: 0 <= i < |rs| && SelfDelete(rs[i], deleted)
  }

  /** A drain misses nothing that was queued, however the kernel splits it into answers. */
  lemma {:induction false} DrainMissesNothing(queue: seq<Record>, answers: seq<ReadResult>, deleted: nat)
    requires AllFit(queue) && Drains(queue, answers)
    ensures var news := Drained(answers, deleted);
      && (queue != [] ==> news.changed)
      && (HoldsSelfDelete(queue, deleted) ==> news.gone)
      && (Failed !in answers ==> news == News(queue != [], HoldsSelfDelete(queue, deleted)))
    decreases |answers|
  {
    hide Classify, EncodeRecords, SelfDelete, Fits;
    match answers[0]
    case Batch(rs) =>
      var later := queue[|rs|..];
      assert queue == rs + later;
      ClassifyExact(rs, deleted);
      DrainMissesNothing(later, answers[1..], deleted);
      SelfDeleteSplits(rs, later, deleted);
    case Interrupted => DrainMissesNothing(queue, answers[1..], deleted);
    case _ =>
  }

  lemma SelfDeleteSplits(a: seq<Record>, b: seq<Record>, deleted: nat)
    ensures HoldsSelfDelete(a + b, deleted) <==> HoldsSelfDelete(a, deleted) || HoldsSelfDelete(b, deleted)
  {
    hide SelfDelete;
    var s := a + b;
    forall i | 0 <= i < |a| ensures s[i] == a[i] {}
    forall i | 0 <= i < |b| ensures s[|a| + i] == b[i] {}
    forall i | |a| <= i < |s| ensures s[i] == b[i - |a|] {}
  }
}
