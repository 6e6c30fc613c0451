/**
 What throttling promises (`record` in web/nasa_web/storage.py): how far apart the queued samples of an entity
 are, and which queued sample stands for a report that was not queued.
 */
module Throttle {
  import opened Basics
  import opened Storage
  import opened Restart

  predicate SameState(a: Sample, b: Sample) {
    a.value == b.value && a.text == b.text
  }

  /** Unchanged samples are a heartbeat apart, numeric ones the minimum interval. */
  predicate Apart(c: Settings, a: Sample, b: Sample) {
    && (SameState(a, b) ==> b.ts - a.ts >= c.heartbeat)
    && (b.text.None? ==> b.ts - a.ts >= c.minInterval)
  }

  predicate Spaced(c: Settings, queue: seq<Sample>) {
    forall i :: 0 < i < |queue| ==> Apart(c, queue[i - 1], queue[i])
  }

  /** The report was queued, or repeats a sample less than a heartbeat old, or is numeric and too soon after one. */
  predicate StandsFor(c: Settings, q: Sample, s: Sample) {
    || q == s
    || (SameState(q, s) && s.ts - q.ts < c.heartbeat)
    || (s.text.None? && s.ts - q.ts < c.minInterval)
  }

  /** `k` is the latest queued sample when report `s` comes, and stands for it. */
  predicate Represents(c: Settings, queue: seq<Sample>, k: int, s: Sample) {
    && 0 <= k < |queue| && queue[k].ts <= s.ts && (k + 1 < |queue| ==> s.ts <= queue[k + 1].ts)
    && StandsFor(c, queue[k], s)
  }

  ghost predicate IsRepresented(c: Settings, queue: seq<Sample>, s: Sample) {
    exists k :: Represents(c, queue, k, s)
  }

  ghost predicate Represented(c: Settings, queue: seq<Sample>, reports: seq<Sample>) {
    forall j :: 0 <= j < |reports| ==> IsRepresented(c, queue, reports[j])
  }

  /** Only record calls, under a clock that never runs backwards. */
  predicate RecordRun(ops: seq<Op>, t: int) {
    forall i :: 0 <= i < |ops| ==> ops[i].Record? && ClockAfter(ops[..i], t) <= Clock(ops[i], ClockAfter(ops[..i], t))
  }

  ghost predicate Throttled(c: Settings, st: Store, reports: seq<Sample>, t: int, id: string) {
    var queue := QueueOf(st.pending, id);
    && Spaced(c, queue) && Represented(c, queue, reports)
    && LastOf(st, id) == (if queue == [] then None else Some(Last(queue)))
    && (forall i :: 0 <= i < |queue| ==> queue[i].ts <= t)
    && (forall j :: 0 <= j < |reports| ==> reports[j].ts <= t)
  }

  lemma QueuedReport(c: Settings, queue: seq<Sample>, reports: seq<Sample>, s: Sample)
    requires Spaced(c, queue) && Represented(c, queue, reports)
    requires Accepts(c, if queue == [] then None else Some(Last(queue)), s)
    requires forall j :: 0 <= j < |reports| ==> reports[j].ts <= s.ts
    ensures Spaced(c, queue + [s]) && Represented(c, queue + [s], reports + [s])
  {
    forall j | 0 <= j < |reports + [s]| ensures IsRepresented(c, queue + [s], (reports + [s])[j]) {
      var n, r := |queue|, (reports + [s])[j];
      if j < |reports| {
        assert r == reports[j] && IsRepresented(c, queue, r);
        var k :| Represents(c, queue, k, r);
        assert Represents(c, queue + [s], k, r);
      } else {
        assert Represents(c, queue + [s], n, r);
      }
    }
  }

  lemma UnqueuedReport(c: Settings, queue: seq<Sample>, reports: seq<Sample>, s: Sample)
    requires Represented(c, queue, reports)
    requires !Accepts(c, if queue == [] then None else Some(Last(queue)), s)
    requires queue != [] ==> Last(queue).ts <= s.ts
    ensures Represented(c, queue, reports + [s])
  {
    var last := |queue| - 1;
    assert Represents(c, queue, last, s);
    forall j | 0 <= j < |reports + [s]| ensures IsRepresented(c, queue, (reports + [s])[j]) {
      var r := (reports + [s])[j];
      assert if j < |reports| then r == reports[j] else Represents(c, queue, last, r);
    }
  }

  lemma ThrottledStep(c: Settings, st: Store, reports: seq<Sample>, t: int, id: string, who: string, s: Sample)
    requires Throttled(c, st, reports, t, id) && t <= s.ts
    ensures Throttled(c, Recorded(c, st, who, s), reports + (if who == id then [s] else []), s.ts, id)
  {
    hide Accepts, Spaced, Represented, QueueOf;
    var queue := QueueOf(st.pending, id);
    assert queue + [] == queue && reports + [] == reports;
    QueueAppend(st.pending, Queued(who, s), id);
    if who == id {
      if Accepts(c, LastOf(st, id), s) {
        QueuedReport(c, queue, reports, s);
      } else {
        UnqueuedReport(c, queue, reports, s);
      }
    }
  }

  lemma LastClock(ops: seq<Op>, t: int)
    requires ops != []
    ensures ops[|ops| - 1].Record? ==>
      ops[|ops| - 1].at == ClockAfter(ops, t) == Clock(ops[|ops| - 1], ClockAfter(ops[..|ops| - 1], t))
  {
  }

  lemma RecordPrefix(ops: seq<Op>, t: int)
    requires RecordRun(ops, t) && ops != []
    ensures RecordRun(ops[..|ops| - 1], t)
    ensures ops[|ops| - 1].Record? && ClockAfter(ops[..|ops| - 1], t) <= ops[|ops| - 1].at == ClockAfter(ops, t)
  {
    hide ClockAfter, Clock;
    var before := ops[..|ops| - 1];
    LastClock(ops, t);
    forall i | 0 <= i < |before|
      ensures before[i].Record? && ClockAfter(before[..i], t) <= Clock(before[i], ClockAfter(before[..i], t))
    {
      assert before[..i] == ops[..i] && before[i] == ops[i];
    }
  }

  /**
   After every run of record calls on a new store, unchanged samples of an entity are queued at most once per
   heartbeat and numeric ones at most once per minimum interval; and each report was queued, or the sample queued
   last before it either shows the same state and is younger than a heartbeat, or is numeric and younger than the
   minimum interval. So no change of a state with a text is lost.
   */
  lemma {:induction false} ThrottlingLosesNoState(c: Settings, ops: seq<Op>, t: int, id: string)
    requires RecordRun(ops, t)
    ensures Throttled(c, Run(c, 0, ops), ReportsOf(ops, id), ClockAfter(ops, t), id)
  {
    hide Throttled, Recorded;
    if ops == [] {
      NothingThrottled(c, t, id);
    } else {
      var before, op := ops[..|ops| - 1], ops[|ops| - 1];
      RecordPrefix(ops, t);
      ThrottlingLosesNoState(c, before, t, id);
      ThrottledStep(c, Run(c, 0, before), ReportsOf(before, id), ClockAfter(before, t), id, op.id,
                    Sample(op.at, op.value, op.text));
    }
  }

  lemma NothingThrottled(c: Settings, t: int, id: string)
    ensures Throttled(c, Opened(map[]), [], t, id)
  {
  }
}
