/**
 From reports to the drawn timeline: throttled recording, flushes, purges and restarts, the raw history and the
 timeline together show, at every instant, the state that was last reported, or nothing where it was purged.
 */
module StepHistory {
  import opened Basics
  import opened Storage
  import opened Restart
  import opened Timeline

  /** The cutoff of the last purge. */
  function Cutoff(retention: nat, ops: seq<Op>): Option<int> {
    if ops == [] then None
    else if ops[|ops| - 1].Purge? then Some(ops[|ops| - 1].at - retention)
    else Cutoff(retention, ops[..|ops| - 1])
  }

  /** A run under a clock that never runs backwards, in which entity `id` reports states as text. */
  predicate StateRun(ops: seq<Op>, t: int, id: string) {
    forall i :: 0 <= i < |ops| ==>
      && ClockAfter(ops[..i], t) <= Clock(ops[i], ClockAfter(ops[..i], t))
      && (ops[i].Record? && ops[i].id == id ==> ops[i].text.Some?)
  }

  /** The text of the last sample at or before `x`. */
  function TextAt(samples: seq<Sample>, x: real): Option<string> {
    if samples == [] then None
    else if Last(samples).ts as real <= x then Last(samples).text
    else TextAt(samples[..|samples| - 1], x)
  }

  /** The rows an entity has once everything queued is written. */
  function AllRows(st: Store, id: string): Rows {
    UpsertAll(RowsOf(st.db, id), QueueOf(st.pending, id))
  }

  // ---------------------------------------------------------------- recording keeps the step function

  /** A sample that is not older than the rows is appended, or replaces the last row of the same second. */
  lemma {:induction false} UpsertAtEnd(rows: Rows, s: Sample)
    requires Sorted(rows) && (rows != [] ==> Last(rows).ts <= s.ts)
    ensures Upsert(rows, s) == (if rows != [] && Last(rows).ts == s.ts then rows[..|rows| - 1] else rows) + [s]
  {
    assert |rows| > 1 ==> rows[0].ts < Last(rows).ts;
    if rows != [] && s.ts > rows[0].ts {
      UpsertAtEnd(rows[1..], s);
      if |rows| > 1 && Last(rows).ts == s.ts {
        assert [rows[0]] + (rows[1..][..|rows| - 2] + [s]) == rows[..|rows| - 1] + [s];
      } else {
        assert [rows[0]] + (rows[1..] + [s]) == rows + [s];
      }
    }
  }

  lemma {:induction false} UpsertAllAppend(rows: Rows, queue: seq<Sample>, s: Sample)
    ensures UpsertAll(rows, queue + [s]) == Upsert(UpsertAll(rows, queue), s)
    decreases |queue|
  {
    hide Upsert;
    if queue == [] {
      assert [] + [s] == [s] && [s][1..] == [];
      assert UpsertAll(rows, [s]) == UpsertAll(Upsert(rows, s), []);
    } else {
      UpsertAllAppend(Upsert(rows, queue[0]), queue[1..], s);
      assert (queue + [s])[1..] == queue[1..] + [s];
    }
  }

  lemma TextAppend(samples: seq<Sample>, s: Sample, x: real)
    ensures TextAt(samples + [s], x) == if s.ts as real <= x then s.text else TextAt(samples, x)
  {
    assert (samples + [s])[..|samples|] == samples;
  }

  lemma TextReplace(rows: Rows, s: Sample, x: real)
    requires rows != [] && Last(rows).ts == s.ts
    ensures TextAt(rows[..|rows| - 1] + [s], x) == if s.ts as real <= x then s.text else TextAt(rows, x)
  {
    TextAppend(rows[..|rows| - 1], s, x);
  }

  lemma UpsertText(rows: Rows, s: Sample, x: real)
    requires Sorted(rows) && (rows != [] ==> Last(rows).ts <= s.ts)
    ensures TextAt(Upsert(rows, s), x) == if s.ts as real <= x then s.text else TextAt(rows, x)
  {
    hide TextAt, Upsert;
    UpsertAtEnd(rows, s);
    if rows != [] && Last(rows).ts == s.ts {
      TextReplace(rows, s, x);
    } else {
      TextAppend(rows, s, x);
    }
  }

  // ---------------------------------------------------------------- the invariant

  /** How long an unchanged state may go unrecorded. */
  function Slack(c: Settings): nat {
    if c.heartbeat > 0 then c.heartbeat else 0
  }

  /** So late a report that no purge has reached a row it relies on. */
  predicate Durable(c: Settings, cutoff: Option<int>, s: Sample) {
    cutoff.Some? ==> cutoff.value + Slack(c) <= s.ts
  }

  predicate HasRow(rows: Rows, from: int, to: int) {
    exists k :: 0 <= k < |rows| && from <= rows[k].ts <= to
  }

  /** Each durable report has a row of its own second or one of the heartbeat before it. */
  predicate Backed(c: Settings, rows: Rows, reports: seq<Sample>, cutoff: Option<int>) {
    forall i :: 0 <= i < |reports| && Durable(c, cutoff, reports[i])
      ==> HasRow(rows, reports[i].ts - Slack(c), reports[i].ts)
  }

  /** Rows show at every instant what was reported, or nothing. */
  ghost predicate NeverWrong(rows: Rows, reports: seq<Sample>) {
    forall x: real :: TextAt(rows, x) == TextAt(reports, x) || TextAt(rows, x) == None
  }

  predicate AllTexts(rows: Rows) {
    forall i :: 0 <= i < |rows| ==> rows[i].text.Some?
  }

  /** `_last` is the last row; without rows it is a sample that has been purged. */
  predicate LastFits(last: Option<Sample>, rows: Rows, cutoff: Option<int>, t: int) {
    && (rows != [] ==> last == Some(Last(rows)))
    && (last.Some? ==> last.value.ts <= t && last.value.text.Some?)
    && (rows == [] && last.Some? ==> cutoff.Some? && last.value.ts < cutoff.value)
  }

  /** Rows, queue and `_last` of an entity agree with each other and with what it reported up to time `t`. */
  ghost predicate Faithful(c: Settings, st: Store, reports: seq<Sample>, cutoff: Option<int>, t: int, id: string) {
    var rows := AllRows(st, id);
    && Sorted(RowsOf(st.db, id)) && Ordered(RowsOf(st.db, id), QueueOf(st.pending, id)) && Sorted(rows)
    && LastFits(LastOf(st, id), rows, cutoff, t) && AllTexts(rows)
    && NeverWrong(rows, reports) && Backed(c, rows, reports, cutoff)
  }

  lemma FaithfulElsewhere(c: Settings, st: Store, reports: seq<Sample>, cutoff: Option<int>, t: int, id: string,
                          who: string, s: Sample)
    requires Faithful(c, st, reports, cutoff, t, id) && who != id && t <= s.ts
    ensures Faithful(c, Recorded(c, st, who, s), reports, cutoff, s.ts, id)
  {
    hide QueueOf, Accepts, Sorted, Ordered, UpsertAll, NeverWrong, Backed, AllTexts;
    QueueAppend(st.pending, Queued(who, s), id);
    assert QueueOf(st.pending, id) + [] == QueueOf(st.pending, id);
  }

  /** A report that repeats the last row changes neither what is shown nor what is backed. */
  lemma RepeatedReport(c: Settings, rows: Rows, reports: seq<Sample>, cutoff: Option<int>, last: Option<Sample>, t: int, s: Sample)
    requires LastFits(last, rows, cutoff, t) && t <= s.ts && s.text.Some? && !Accepts(c, last, s)
    requires NeverWrong(rows, reports) && Backed(c, rows, reports, cutoff)
    ensures NeverWrong(rows, reports + [s]) && Backed(c, rows, reports + [s], cutoff)
    ensures LastFits(last, rows, cutoff, s.ts)
  {
    forall x: real ensures TextAt(rows, x) == TextAt(reports + [s], x) || TextAt(rows, x) == None {
      TextAppend(reports, s, x);
      assert TextAt(rows, x) == TextAt(reports, x) || TextAt(rows, x) == None;
    }
    hide TextAt, NeverWrong;
    if Durable(c, cutoff, s) {
      assert rows != [];
      assert s.ts - Slack(c) <= rows[|rows| - 1].ts <= s.ts;
    }
    forall i | 0 <= i < |reports + [s]| && Durable(c, cutoff, (reports + [s])[i])
      ensures HasRow(rows, (reports + [s])[i].ts - Slack(c), (reports + [s])[i].ts)
    {
      assert i < |reports| ==> (reports + [s])[i] == reports[i];
    }
  }

  lemma FaithfulRejected(c: Settings, st: Store, reports: seq<Sample>, cutoff: Option<int>, t: int, id: string, s: Sample)
    requires Faithful(c, st, reports, cutoff, t, id) && t <= s.ts && s.text.Some? && !Accepts(c, LastOf(st, id), s)
    ensures Faithful(c, st, reports + [s], cutoff, s.ts, id)
  {
    hide QueueOf, UpsertAll, Sorted, Ordered, NeverWrong, Backed, LastFits, Accepts;
    RepeatedReport(c, AllRows(st, id), reports, cutoff, LastOf(st, id), t, s);
  }

  /** A recorded report is shown from its second on. */
  lemma RecordedIsShown(rows: Rows, reports: seq<Sample>, s: Sample)
    requires Sorted(rows) && (rows != [] ==> Last(rows).ts <= s.ts) && NeverWrong(rows, reports)
    ensures NeverWrong(Upsert(rows, s), reports + [s])
  {
    hide Upsert, TextAt, Sorted;
    forall x: real ensures TextAt(Upsert(rows, s), x) == TextAt(reports + [s], x) || TextAt(Upsert(rows, s), x) == None {
      TextAppend(reports, s, x);
      UpsertText(rows, s, x);
      assert TextAt(rows, x) == TextAt(reports, x) || TextAt(rows, x) == None;
    }
  }

  /** It is backed by its own row. */
  lemma RecordedIsBacked(c: Settings, rows: Rows, reports: seq<Sample>, cutoff: Option<int>, s: Sample)
    requires Sorted(rows) && (rows != [] ==> Last(rows).ts <= s.ts) && Backed(c, rows, reports, cutoff)
    ensures Backed(c, Upsert(rows, s), reports + [s], cutoff)
  {
    var rows' := Upsert(rows, s);
    UpsertAtEnd(rows, s);
    hide Upsert, Sorted, Durable, Slack;
    assert forall k :: 0 <= k < |rows| ==> rows'[k].ts == rows[k].ts;
    assert rows'[|rows'| - 1] == s && Slack(c) >= 0;
    forall i | 0 <= i < |reports + [s]| && Durable(c, cutoff, (reports + [s])[i])
      ensures HasRow(rows', (reports + [s])[i].ts - Slack(c), (reports + [s])[i].ts)
    {
      if i < |reports| {
        assert (reports + [s])[i] == reports[i];
        var k :| 0 <= k < |rows| && reports[i].ts - Slack(c) <= rows[k].ts <= reports[i].ts;
        assert rows'[k].ts == rows[k].ts;
      }
    }
  }

  lemma RecordedRows(rows: Rows, s: Sample)
    requires Sorted(rows) && AllTexts(rows) && s.text.Some? && (rows != [] ==> Last(rows).ts <= s.ts)
    ensures AllTexts(Upsert(rows, s)) && Sorted(Upsert(rows, s)) && Last(Upsert(rows, s)) == s
  {
    UpsertSorted(rows, s);
    UpsertAtEnd(rows, s);
    hide Upsert, Sorted;
  }

  lemma FaithfulAccepted(c: Settings, st: Store, reports: seq<Sample>, cutoff: Option<int>, t: int, id: string, s: Sample)
    requires Faithful(c, st, reports, cutoff, t, id) && t <= s.ts && s.text.Some? && Accepts(c, LastOf(st, id), s)
    ensures Faithful(c, Recorded(c, st, id, s), reports + [s], cutoff, s.ts, id)
  {
    var rows, queue := AllRows(st, id), QueueOf(st.pending, id);
    QueueAppend(st.pending, Queued(id, s), id);
    UpsertAllAppend(RowsOf(st.db, id), queue, s);
    QueueEnd(RowsOf(st.db, id), queue);
    hide QueueOf, UpsertAll, Upsert, Sorted, Accepts, NeverWrong, Backed, AllTexts;
    OrderedAppend(RowsOf(st.db, id), queue, s);
    hide Ordered;
    RecordedRows(rows, s);
    RecordedIsShown(rows, reports, s);
    RecordedIsBacked(c, rows, reports, cutoff, s);
  }

  lemma QueueEnd(rows: Rows, queue: seq<Sample>)
    requires Sorted(rows) && Ordered(rows, queue)
    ensures queue != [] ==> UpsertAll(rows, queue) != [] && Last(UpsertAll(rows, queue)) == Last(queue)
    ensures queue == [] ==> UpsertAll(rows, queue) == rows
  {
    UpsertAllLast(rows, queue);
  }

  lemma FaithfulFlush(c: Settings, st: Store, reports: seq<Sample>, cutoff: Option<int>, t: int, id: string)
    requires Faithful(c, st, reports, cutoff, t, id)
    ensures Faithful(c, Flushed(st), reports, cutoff, t, id) && Faithful(c, Reopened(st), reports, cutoff, t, id)
    ensures RowsOf(Flushed(st).db, id) == AllRows(st, id)
  {
    hide InsertAll, Sorted, NeverWrong, Backed;
    InsertAllRows(st.db, st.pending, id);
    UpsertNothing(AllRows(st, id));
    assert QueueOf([], id) == [];
  }

  // ---------------------------------------------------------------- purges

  /** `part` is what is left of `full` when some rows before `cutoff` are gone. */
  predicate Remains(full: Rows, part: Rows, m: nat, cutoff: int) {
    m <= |full| && part == full[m..] && forall i :: 0 <= i < m ==> full[i].ts < cutoff
  }

  lemma SuffixAppend(full: Rows, m: nat, s: Sample)
    requires m <= |full|
    ensures full[m..] + [s] == (full + [s])[m..]
  {
  }

  lemma SuffixReplace(full: Rows, m: nat, s: Sample)
    requires m < |full|
    ensures full[m..][..|full| - m - 1] + [s] == (full[..|full| - 1] + [s])[m..]
  {
  }

  lemma SuffixAll(full: Rows, s: Sample)
    requires full != []
    ensures [s] == (full[..|full| - 1] + [s])[|full| - 1..]
  {
  }

  lemma RemainsUpsert(full: Rows, part: Rows, m: nat, cutoff: int, s: Sample) returns (m': nat)
    requires Sorted(full) && Remains(full, part, m, cutoff) && (full != [] ==> Last(full).ts <= s.ts)
    ensures Remains(Upsert(full, s), Upsert(part, s), m', cutoff)
  {
    SuffixSorted(full, part, m, cutoff);
    UpsertAtEnd(full, s);
    UpsertAtEnd(part, s);
    hide Upsert, Sorted;
    m' := m;
    if full == [] || Last(full).ts != s.ts {
      SuffixAppend(full, m, s);
    } else if m < |full| {
      SuffixReplace(full, m, s);
    } else {
      m' := m - 1;
      SuffixAll(full, s);
    }
  }

  lemma {:induction false} RemainsUpsertAll(full: Rows, part: Rows, m: nat, cutoff: int, queue: seq<Sample>) returns (m': nat)
    requires Sorted(full) && Ordered(full, queue) && Remains(full, part, m, cutoff)
    ensures Remains(UpsertAll(full, queue), UpsertAll(part, queue), m', cutoff)
    decreases |queue|
  {
    hide Remains, Upsert;
    m' := m;
    if queue != [] {
      m' := RemainsUpsert(full, part, m, cutoff, queue[0]);
      UpsertSorted(full, queue[0]);
      UpsertLast(full, queue[0]);
      m' := RemainsUpsertAll(Upsert(full, queue[0]), Upsert(part, queue[0]), m', cutoff, queue[1..]);
    }
  }

  lemma {:induction false} TextOfRemains(full: Rows, m: nat, x: real)
    requires m <= |full|
    ensures TextAt(full[m..], x) == TextAt(full, x) || TextAt(full[m..], x) == None
    decreases |full|
  {
    if m < |full| {
      var n := |full| - 1;
      TextOfRemains(full[..n], m, x);
      assert full[m..][..n - m] == full[..n][m..];
    }
  }

  lemma RemainingRows(c: Settings, full: Rows, part: Rows, m: nat, reports: seq<Sample>, last: Option<Sample>,
                      cutoff: Option<int>, cutoff': int, t: int)
    requires Remains(full, part, m, cutoff') && (cutoff.Some? ==> cutoff.value <= cutoff')
    requires LastFits(last, full, cutoff, t) && AllTexts(full) && NeverWrong(full, reports) && Backed(c, full, reports, cutoff)
    ensures LastFits(last, part, Some(cutoff'), t) && AllTexts(part)
    ensures NeverWrong(part, reports) && Backed(c, part, reports, Some(cutoff'))
  {
    hide TextAt;
    forall x: real ensures TextAt(part, x) == TextAt(reports, x) || TextAt(part, x) == None {
      TextOfRemains(full, m, x);
      assert TextAt(full, x) == TextAt(reports, x) || TextAt(full, x) == None;
    }
    forall i | 0 <= i < |reports| && Durable(c, Some(cutoff'), reports[i])
      ensures HasRow(part, reports[i].ts - Slack(c), reports[i].ts)
    {
      assert Durable(c, cutoff, reports[i]);
      var k :| 0 <= k < |full| && reports[i].ts - Slack(c) <= full[k].ts <= reports[i].ts;
      assert part[k - m] == full[k];
    }
  }

  lemma PurgedRows(c: Settings, rows: Rows, queue: seq<Sample>, last: Option<Sample>, reports: seq<Sample>,
                   cutoff: Option<int>, cutoff': int, t: int)
    requires Sorted(rows) && Ordered(rows, queue) && Sorted(UpsertAll(rows, queue))
    requires LastFits(last, UpsertAll(rows, queue), cutoff, t) && AllTexts(UpsertAll(rows, queue))
    requires NeverWrong(UpsertAll(rows, queue), reports) && Backed(c, UpsertAll(rows, queue), reports, cutoff)
    requires cutoff.Some? ==> cutoff.value <= cutoff'
    ensures var part := UpsertAll(Keep(rows, cutoff'), queue);
            && LastFits(last, part, Some(cutoff'), t) && AllTexts(part)
            && NeverWrong(part, reports) && Backed(c, part, reports, Some(cutoff'))
    ensures Sorted(Keep(rows, cutoff')) && Ordered(Keep(rows, cutoff'), queue)
    ensures Sorted(UpsertAll(Keep(rows, cutoff'), queue))
  {
    hide Keep, Upsert, UpsertAll, NeverWrong, Backed, AllTexts, Remains, Sorted;
    var k := KeepIsSuffix(rows, cutoff');
    RowsRemain(rows, k, cutoff');
    var m := RemainsUpsertAll(rows, rows[k..], k, cutoff', queue);
    SuffixSorted(rows, rows[k..], k, cutoff');
    SuffixSorted(UpsertAll(rows, queue), UpsertAll(rows[k..], queue), m, cutoff');
    RemainingRows(c, UpsertAll(rows, queue), UpsertAll(rows[k..], queue), m, reports, last, cutoff, cutoff', t);
  }

  lemma FaithfulPurge(c: Settings, retention: nat, st: Store, reports: seq<Sample>, cutoff: Option<int>, t: int, now: int, id: string)
    requires Faithful(c, st, reports, cutoff, t, id) && t <= now
    requires cutoff.Some? ==> cutoff.value <= now - retention
    ensures Faithful(c, Purged(st, now - retention), reports, Some(now - retention), now, id)
  {
    hide Keep, QueueOf, UpsertAll, NeverWrong, Backed, AllTexts, LastFits, Sorted, Ordered;
    var cutoff', rows, queue := now - retention, RowsOf(st.db, id), QueueOf(st.pending, id);
    PurgedRows(c, rows, queue, LastOf(st, id), reports, cutoff, cutoff', t);
    EmptyKeep(cutoff');
    assert RowsOf(Purged(st, cutoff').db, id) == Keep(rows, cutoff');
    LastFitsLater(LastOf(st, id), UpsertAll(Keep(rows, cutoff'), queue), cutoff', t, now);
  }

  lemma EmptyKeep(cutoff: int)
    ensures Keep([], cutoff) == []
  {
  }

  lemma RowsRemain(rows: Rows, k: nat, cutoff: int)
    requires k <= |rows| && forall i :: 0 <= i < |rows| ==> (rows[i].ts < cutoff <==> i < k)
    ensures Remains(rows, rows[k..], k, cutoff)
  {
  }

  lemma SuffixSorted(full: Rows, part: Rows, m: nat, cutoff: int)
    requires Sorted(full) && Remains(full, part, m, cutoff)
    ensures Sorted(part) && (part != [] ==> Last(part) == Last(full))
  {
  }

  lemma LastFitsLater(last: Option<Sample>, rows: Rows, cutoff: int, t: int, t': int)
    requires LastFits(last, rows, Some(cutoff), t) && t <= t'
    ensures LastFits(last, rows, Some(cutoff), t')
  {
  }

  // ---------------------------------------------------------------- runs

  lemma {:induction false} CutoffInPast(retention: nat, ops: seq<Op>, t: int, id: string)
    requires StateRun(ops, t, id)
    ensures Cutoff(retention, ops).Some? ==> Cutoff(retention, ops).value <= ClockAfter(ops, t) - retention
  {
    if ops != [] {
      StatePrefix(ops, t, id);
      CutoffInPast(retention, ops[..|ops| - 1], t, id);
    }
  }

  lemma StatePrefix(ops: seq<Op>, t: int, id: string)
    requires StateRun(ops, t, id) && ops != []
    ensures StateRun(ops[..|ops| - 1], t, id)
    ensures ClockAfter(ops[..|ops| - 1], t) <= ClockAfter(ops, t)
  {
    var before := ops[..|ops| - 1];
    forall i | 0 <= i < |before|
      ensures ClockAfter(before[..i], t) <= Clock(before[i], ClockAfter(before[..i], t))
      ensures before[i].Record? && before[i].id == id ==> before[i].text.Some?
    {
      assert before[..i] == ops[..i] && before[i] == ops[i];
    }
  }

  lemma FaithfulStep(c: Settings, retention: nat, st: Store, reports: seq<Sample>, cutoff: Option<int>, t: int, id: string, op: Op)
    requires Faithful(c, st, reports, cutoff, t, id) && t <= Clock(op, t)
    requires op.Record? && op.id == id ==> op.text.Some?
    requires cutoff.Some? ==> cutoff.value <= t - retention
    ensures Faithful(c, Apply(c, retention, st, op), reports + ReportOf(op, id),
                     if op.Purge? then Some(op.at - retention) else cutoff, Clock(op, t), id)
  {
    hide Faithful, Recorded, Flushed, Reopened, Purged, Accepts;
    assert reports + [] == reports;
    match op
    case Flush => FaithfulFlush(c, st, reports, cutoff, t, id);
    case Reopen => FaithfulFlush(c, st, reports, cutoff, t, id);
    case Purge(at) => FaithfulPurge(c, retention, st, reports, cutoff, t, at, id);
    case Record(who, value, text, at) =>
      var s := Sample(at, value, text);
      if who != id {
        FaithfulElsewhere(c, st, reports, cutoff, t, id, who, s);
      } else if Accepts(c, LastOf(st, id), s) {
        FaithfulAccepted(c, st, reports, cutoff, t, id, s);
      } else {
        FaithfulRejected(c, st, reports, cutoff, t, id, s);
        RejectedChangesNothing(c, st, id, s);
      }
  }

  /**
   After every run of reports, flushes, purges and restarts, the rows of an entity, written or queued, show at
   each instant the last state reported, or nothing; and a report that came at least a heartbeat after the
   last cutoff is backed by a row.
   */
  lemma {:induction false} RecordingIsFaithful(c: Settings, retention: nat, ops: seq<Op>, t: int, id: string)
    requires StateRun(ops, t, id)
    ensures Faithful(c, Run(c, retention, ops), ReportsOf(ops, id), Cutoff(retention, ops), ClockAfter(ops, t), id)
  {
    hide Faithful, Apply, Clock;
    if ops == [] {
      NothingRecorded(c, t, id);
    } else {
      var before, op := ops[..|ops| - 1], ops[|ops| - 1];
      StatePrefix(ops, t, id);
      RecordingIsFaithful(c, retention, before, t, id);
      CutoffInPast(retention, before, t, id);
      FaithfulStep(c, retention, Run(c, retention, before), ReportsOf(before, id), Cutoff(retention, before),
                   ClockAfter(before, t), id, op);
    }
  }

  lemma NothingRecorded(c: Settings, t: int, id: string)
    ensures Faithful(c, Opened(map[]), [], None, t, id)
  {
  }

  lemma RejectedChangesNothing(c: Settings, st: Store, id: string, s: Sample)
    requires !Accepts(c, LastOf(st, id), s)
    ensures Recorded(c, st, id, s) == st
  {
  }

  // ---------------------------------------------------------------- the raw history keeps it

  /** Sorted rows are cut in two by any bound. */
  lemma {:induction false} CutAt(rows: Rows, bound: int) returns (i: nat)
    requires Sorted(rows)
    ensures i <= |rows| && forall k :: 0 <= k < |rows| ==> (rows[k].ts < bound <==> k < i)
    decreases |rows|
  {
    if rows == [] || Last(rows).ts < bound {
      i := |rows|;
    } else {
      i := CutAt(rows[..|rows| - 1], bound);
    }
  }

  lemma CutsInOrder(rows: Rows, start: int, end: int, i: nat, j: nat)
    requires start <= end && i <= |rows| && j <= |rows|
    requires forall k :: 0 <= k < |rows| ==> (rows[k].ts < start <==> k < i)
    requires forall k :: 0 <= k < |rows| ==> (rows[k].ts < end + 1 <==> k < j)
    ensures i <= j
  {
    assert j < |rows| ==> end < rows[j].ts;
  }

  /** The window is the slice between its two cuts. */
  lemma {:induction false} BetweenIsSlice(rows: Rows, start: int, end: int, i: nat, j: nat)
    requires i <= j <= |rows|
    requires forall k :: 0 <= k < |rows| ==> (rows[k].ts < start <==> k < i) && (rows[k].ts <= end <==> k < j)
    ensures Between(rows, start, end) == rows[i..j]
  {
    if rows != [] {
      var rest := rows[1..];
      assert forall k :: 0 <= k < |rest| ==> rest[k] == rows[k + 1];
      if i > 0 {
        BetweenIsSlice(rest, start, end, i - 1, j - 1);
        SliceTail(rows, i, j);
      } else if j > 0 {
        BetweenIsSlice(rest, start, end, 0, j - 1);
        SliceHead(rows, j);
      } else {
        BetweenIsSlice(rest, start, end, 0, 0);
      }
    }
  }

  lemma SliceTail(rows: Rows, i: nat, j: nat)
    requires 0 < i <= j <= |rows|
    ensures [] + rows[1..][i - 1..j - 1] == rows[i..j]
  {
  }

  lemma SliceHead(rows: Rows, j: nat)
    requires 0 < j <= |rows|
    ensures [rows[0]] + rows[1..][0..j - 1] == rows[0..j]
  {
  }

  lemma {:induction false} BeforeIsRow(rows: Rows, start: int, i: nat)
    requires i <= |rows| && forall k :: 0 <= k < |rows| ==> (rows[k].ts < start <==> k < i)
    ensures Before(rows, start) == if i == 0 then None else Some(rows[i - 1])
    decreases |rows|
  {
    if i < |rows| {
      BeforeIsRow(rows[..|rows| - 1], start, i);
    }
  }

  lemma {:induction false} TextIsRow(rows: Rows, x: real, k: nat)
    requires Sorted(rows) && k <= |rows|
    requires forall i :: 0 <= i < |rows| ==> (rows[i].ts as real <= x <==> i < k)
    ensures TextAt(rows, x) == if k == 0 then None else rows[k - 1].text
    decreases |rows|
  {
    if k < |rows| {
      TextIsRow(rows[..|rows| - 1], x, k);
    }
  }

  lemma {:induction false} RowsUpTo(rows: Rows, x: real) returns (k: nat)
    requires Sorted(rows)
    ensures k <= |rows| && forall i :: 0 <= i < |rows| ==> (rows[i].ts as real <= x <==> i < k)
    decreases |rows|
  {
    if rows == [] || Last(rows).ts as real <= x {
      k := |rows|;
    } else {
      k := RowsUpTo(rows[..|rows| - 1], x);
    }
  }

  lemma NoPointsYet(points: seq<Point>, x: real)
    requires forall i :: 0 <= i < |points| ==> x < points[i].t as real
    ensures TextOfPoints(points, x) == None
  {
    if points != [] {
      NoPointsYet(points[..|points| - 1], x);
    }
  }

  /** The shape of a raw history: the lead-in, if any, then the window. */
  lemma RawHistory(rows: Rows, start: int, end: int, maxPoints: nat) returns (i: nat, j: nat, lead: nat)
    requires Sorted(rows) && start <= end && maxPoints > 0
    ensures i <= j <= |rows| && lead == (if i == 0 then 0 else 1)
    ensures forall k :: 0 <= k < |rows| ==> (rows[k].ts < start <==> k < i) && (rows[k].ts <= end <==> k < j)
    ensures var points := History(rows, start, end, maxPoints, false);
            && |points| == lead + (j - i)
            && (lead == 1 ==> var s := rows[i - 1]; points[0] == Point(start, s.value, s.value, s.value, s.text))
            && forall k :: i <= k < j ==>
                 var s := rows[k]; points[lead + (k - i)] == Point(s.ts, s.value, s.value, s.value, s.text)
  {
    hide Between, Before, Sorted, History;
    i := CutAt(rows, start);
    j := CutAt(rows, end + 1);
    CutsInOrder(rows, start, end, i, j);
    BetweenIsSlice(rows, start, end, i, j);
    BeforeIsRow(rows, start, i);
    lead := if i == 0 then 0 else 1;
    RawPointsOfSlice(rows, start, end, maxPoints, i, j);
  }

  /** Few enough samples are returned as they are, also when aggregation is asked for. */
  lemma FewSamples(rows: Rows, start: int, end: int, maxPoints: nat)
    requires maxPoints > 0 && |Between(rows, start, end)| <= maxPoints
    ensures History(rows, start, end, maxPoints, true) == History(rows, start, end, maxPoints, false)
  {
  }

  lemma RawPointsOfSlice(rows: Rows, start: int, end: int, maxPoints: nat, i: nat, j: nat)
    requires i <= j <= |rows| && maxPoints > 0 && Between(rows, start, end) == rows[i..j]
    ensures var lead, points := LeadIn(rows, start), History(rows, start, end, maxPoints, false);
            && |points| == |lead| + (j - i) && (lead != [] ==> points[0] == lead[0])
            && forall k :: i <= k < j ==> points[|lead| + (k - i)] == RawPoint(rows[k].ts, rows[k])
  {
    hide Between, LeadIn, RawPoint;
    assert History(rows, start, end, maxPoints, false) == LeadIn(rows, start) + RawPoints(rows[i..j]);
    assert forall k :: i <= k < j ==> rows[i..j][k - i] == rows[k];
  }

  lemma HistoryInOrder(rows: Rows, start: real, end: real, now: real, maxPoints: nat)
    requires Sorted(rows) && start <= end && maxPoints > 0 && (rows != [] ==> Last(rows).ts as real <= now)
    ensures InOrder(History(rows, start.Floor, end.Floor, maxPoints, false), end, now)
  {
    hide History;
    var i, j, lead := RawHistory(rows, start.Floor, end.Floor, maxPoints);
    var points := History(rows, start.Floor, end.Floor, maxPoints, false);
    assert forall k :: lead <= k < |points| ==> points[k] == RawPoint(rows[i + (k - lead)].ts, rows[i + (k - lead)]);
    assert forall k :: 0 <= k < |rows| ==> rows[k].ts <= Last(rows).ts;
  }

  /** Inside the window, the raw history has the same step function as all rows. */
  lemma HistoryKeepsText(rows: Rows, start: real, end: real, maxPoints: nat, x: real)
    requires Sorted(rows) && start <= x < end && maxPoints > 0
    requires AllTexts(rows)
    ensures var points := History(rows, start.Floor, end.Floor, maxPoints, false);
            && TextOfPoints(points, x) == TextAt(rows, x)
            && (TextAt(rows, x).Some? <==> points != [] && points[0].t as real <= x)
  {
    hide History, TextAt, TextOfPoints;
    var first, last := start.Floor, end.Floor;
    var points := History(rows, first, last, maxPoints, false);
    var i, j, lead := RawHistory(rows, first, last, maxPoints);
    var k := RowsUpTo(rows, x);
    TextIsRow(rows, x, k);
    assert forall m :: lead <= m < |points| ==> points[m] == RawPoint(rows[i + (m - lead)].ts, rows[i + (m - lead)]);
    assert forall m :: 0 <= m < |rows| && rows[m].ts as real <= x ==> rows[m].ts <= last;
    assert i > 0 ==> rows[i - 1].ts < first;
    assert k > 0 ==> rows[k - 1].ts <= last;
    var n := lead + (k - i);
    if n == 0 {
      NoPointsYet(points, x);
    } else {
      PointsSorted(points, first, i, j, lead, rows);
      TextOfPrefix(points, n, x);
    }
  }

  lemma PointsSorted(points: seq<Point>, start: int, i: nat, j: nat, lead: nat, rows: Rows)
    requires Sorted(rows) && i <= j <= |rows| && lead <= 1 && |points| == lead + (j - i)
    requires forall k :: 0 <= k < |rows| ==> (rows[k].ts < start <==> k < i)
    requires lead == 1 ==> points[0].t == start
    requires forall m :: lead <= m < |points| ==> points[m] == RawPoint(rows[i + (m - lead)].ts, rows[i + (m - lead)])
    ensures forall k, l :: 0 <= k < l < |points| ==> points[k].t <= points[l].t
  {
  }

  // ---------------------------------------------------------------- end to end

  /** Whatever was reported up to `x` came before the last cutoff, or less than a heartbeat after it. */
  predicate PurgedAway(c: Settings, cutoff: Option<int>, reports: seq<Sample>, x: real) {
    cutoff.Some? && forall i :: 0 <= i < |reports| && reports[i].ts as real <= x ==> !Durable(c, cutoff, reports[i])
  }

  lemma {:induction false} SomeReport(reports: seq<Sample>, x: real) returns (i: nat)
    requires TextAt(reports, x).Some?
    ensures i < |reports| && reports[i].ts as real <= x
    decreases |reports|
  {
    i := |reports| - 1;
    if !(Last(reports).ts as real <= x) {
      i := SomeReport(reports[..i], x);
    }
  }

  /** At `x` the rows show what was reported last, unless everything up to then is purged away. */
  lemma RowsShow(c: Settings, rows: Rows, reports: seq<Sample>, cutoff: Option<int>, x: real)
    requires Sorted(rows) && AllTexts(rows) && NeverWrong(rows, reports) && Backed(c, rows, reports, cutoff)
    ensures TextAt(rows, x) == TextAt(reports, x) || (TextAt(rows, x) == None && PurgedAway(c, cutoff, reports, x))
  {
    hide TextAt, Sorted, Durable;
    if TextAt(rows, x).None? && TextAt(reports, x).Some? && !PurgedAway(c, cutoff, reports, x) {
      var i := SomeReport(reports, x);
      if cutoff.Some? {
        i :| 0 <= i < |reports| && reports[i].ts as real <= x && Durable(c, cutoff, reports[i]);
      }
      assert Durable(c, cutoff, reports[i]) by {
        AlwaysDurable(c, cutoff, reports[i]);
      }
      var k :| 0 <= k < |rows| && reports[i].ts - Slack(c) <= rows[k].ts <= reports[i].ts;
      var n := RowsUpTo(rows, x);
      TextIsRow(rows, x, n);
    }
  }

  lemma AlwaysDurable(c: Settings, cutoff: Option<int>, s: Sample)
    ensures cutoff.None? ==> Durable(c, cutoff, s)
  {
  }

  lemma WrittenRows(c: Settings, st: Store, reports: seq<Sample>, cutoff: Option<int>, t: int, id: string)
    requires Faithful(c, st, reports, cutoff, t, id)
    ensures var rows := RowsOf(Flushed(st).db, id);
            && Sorted(rows) && AllTexts(rows) && (rows != [] ==> Last(rows).ts <= t)
            && NeverWrong(rows, reports) && Backed(c, rows, reports, cutoff)
  {
    hide Flushed;
    FaithfulFlush(c, st, reports, cutoff, t, id);
  }

  /**
   A run of reports, flushes, purges and restarts, the final flush, the raw history of a window and its
   timeline: the segments are ordered, contiguous and maximal, and at every instant of the window up to now they
   show the state last reported, nothing where nothing had been reported yet, and never a wrong state: only
   where every report came before the last cutoff, or less than a heartbeat after it, may they show nothing
   instead. Without a purge they always show the state last reported.
   */
  lemma TimelineShowsReports(c: Settings, retention: nat, ops: seq<Op>, t: int, id: string,
                             start: real, end: real, now: real, maxPoints: nat) returns (segs: seq<Segment>)
    requires StateRun(ops, t, id) && start < end && ClockAfter(ops, t) as real <= now && maxPoints > 0
    ensures var points := History(RowsOf(Flushed(Run(c, retention, ops)).db, id), start.Floor, end.Floor, maxPoints, false);
            segs == Segments(points, start, end, now, |points|)
    ensures segs == [] || exists lo :: Tiles(segs, lo, Min(end, now))
    ensures forall x: real :: start <= x < Min(end, now) ==>
              || Right(segs, TextAt(ReportsOf(ops, id), x), x)
              || (Right(segs, None, x) && PurgedAway(c, Cutoff(retention, ops), ReportsOf(ops, id), x))
  {
    hide History, Run, ReportsOf, Segments, Cutoff, NeverWrong, Backed, Faithful, AllTexts, Sorted, PurgedAway, TextAt, Tiles, Shows;
    var reports, cutoff := ReportsOf(ops, id), Cutoff(retention, ops);
    RecordingIsFaithful(c, retention, ops, t, id);
    WrittenRows(c, Run(c, retention, ops), reports, cutoff, ClockAfter(ops, t), id);
    var rows := RowsOf(Flushed(Run(c, retention, ops)).db, id);
    var points := History(rows, start.Floor, end.Floor, maxPoints, false);
    segs := Segments(points, start, end, now, |points|);
    HistoryInOrder(rows, start, end, now, maxPoints);
    if points == [] {
      NoSegments(points, start, end, now);
    } else {
      TimelineDrawsSteps(points, start, end, now);
    }
    forall x: real | start <= x < Min(end, now)
      ensures Right(segs, TextAt(reports, x), x) || (Right(segs, None, x) && PurgedAway(c, cutoff, reports, x))
    {
      HistoryKeepsText(rows, start, end, maxPoints, x);
      ShowsReport(points, segs, start, Min(end, now), x, TextAt(rows, x));
      RowsShow(c, rows, reports, cutoff, x);
    }
  }

  lemma {:induction false} TilesStartAt(segs: seq<Segment>, lo: real, hi: real, i: nat)
    requires Tiles(segs, lo, hi) && i < |segs|
    ensures lo <= segs[i].a
  {
    if i > 0 {
      TilesStartAt(segs, lo, hi, i - 1);
    }
  }

  /** At `x`, the drawing shows what its samples say. */
  predicate Right(segs: seq<Segment>, reported: Option<string>, x: real) {
    match reported
    case Some(state) => exists i :: 0 <= i < |segs| && Covers(segs[i], x) && segs[i].state == state
    case None => forall i :: 0 <= i < |segs| ==> !Covers(segs[i], x)
  }

  lemma ShowsReport(points: seq<Point>, segs: seq<Segment>, start: real, hi: real, x: real, reported: Option<string>)
    requires start <= x < hi && TextOfPoints(points, x) == reported
    requires reported.Some? <==> points != [] && points[0].t as real <= x
    requires points == [] ==> segs == []
    requires points != [] ==>
      var lo := Max(start, points[0].t as real);
      if hi <= lo then segs == [] else Tiles(segs, lo, hi) && Shows(segs, points, lo, hi)
    ensures Right(segs, reported, x)
  {
    hide Tiles, TextOfPoints;
    if reported.Some? {
      assert ShownAt(segs, points, x);
    } else if segs != [] {
      forall i | 0 <= i < |segs| ensures !Covers(segs[i], x) {
        TilesStartAt(segs, Max(start, points[0].t as real), hi, i);
      }
    }
  }

  lemma NoSegments(points: seq<Point>, start: real, end: real, now: real)
    requires points == []
    ensures Segments(points, start, end, now, |points|) == []
  {
  }
}
