/**
 Maintenance does not change what is recorded: flushes, purges and restarts of the history store leave every
 accept or reject decision as it would have been without them.
 */
module Restart {
  import opened Basics
  import opened Storage

  /** A store under use. `at` is the clock, in whole seconds, when the operation runs. */
  datatype Op =
    | Record(id: string, value: Option<real>, text: Option<string>, at: int)
    | Flush
    | Purge(at: int)
    | Reopen

  /** The clock never runs backwards from `t` on. */
  predicate Timed(ops: seq<Op>, t: int)
    decreases |ops|
  {
    ops == [] ||
    var t' := Clock(ops[0], t);
    t <= t' && Timed(ops[1..], t')
  }

  function Clock(op: Op, t: int): int {
    match op
    case Record(_, _, _, at) => at
    case Purge(at) => at
    case _ => t
  }

  function Apply(c: Settings, retention: nat, st: Store, op: Op): Store {
    match op
    case Record(id, value, text, at) => Recorded(c, st, id, Sample(at, value, text))
    case Flush => Flushed(st)
    case Purge(at) => Purged(st, at - retention)
    case Reopen => Reopened(st)
  }

  /** What entity `id` reports in one operation. */
  function ReportOf(op: Op, id: string): seq<Sample> {
    if op.Record? && op.id == id then [Sample(op.at, op.value, op.text)] else []
  }

  /** The reports of one entity, in the order they came. */
  function ReportsOf(ops: seq<Op>, id: string): seq<Sample> {
    if ops == [] then [] else ReportsOf(ops[..|ops| - 1], id) + ReportOf(ops[|ops| - 1], id)
  }

  function ClockAfter(ops: seq<Op>, t: int): int {
    if ops == [] then t else Clock(ops[|ops| - 1], ClockAfter(ops[..|ops| - 1], t))
  }

  function Run(c: Settings, retention: nat, ops: seq<Op>): Store {
    if ops == [] then Opened(map[]) else Apply(c, retention, Run(c, retention, ops[..|ops| - 1]), ops[|ops| - 1])
  }

  /** The results of the `record` calls of a run. */
  function Decisions(c: Settings, retention: nat, st: Store, ops: seq<Op>): seq<bool>
    decreases |ops|
  {
    if ops == [] then []
    else
      var later := Decisions(c, retention, Apply(c, retention, st, ops[0]), ops[1..]);
      match ops[0]
      case Record(id, value, text, at) => [Accepts(c, LastOf(st, id), Sample(at, value, text))] + later
      case _ => later
  }

  function RecordsOnly(ops: seq<Op>): seq<Op> {
    if ops == [] then [] else (if ops[0].Record? then [ops[0]] else []) + RecordsOnly(ops[1..])
  }

  // ---------------------------------------------------------------- rows

  lemma {:induction false} UpsertMembers(rows: Rows, s: Sample)
    ensures forall r :: r in Upsert(rows, s) ==> r == s || r in rows
  {
    if rows != [] && s.ts > rows[0].ts {
      UpsertMembers(rows[1..], s);
      assert Upsert(rows, s) == [rows[0]] + Upsert(rows[1..], s);
    }
  }

  /** A row replaces the one of its time, if there is one, and leaves all others. */
  lemma {:induction false} UpsertReplaces(rows: Rows, s: Sample)
    requires Sorted(rows)
    ensures forall r :: r in Upsert(rows, s) <==> r == s || (r in rows && r.ts != s.ts)
  {
    if rows != [] {
      SortedFirst(rows);
      assert rows == [rows[0]] + rows[1..];
      hide Sorted;
      if s.ts > rows[0].ts {
        UpsertReplaces(rows[1..], s);
      }
    }
  }

  lemma {:induction false} UpsertSorted(rows: Rows, s: Sample)
    requires Sorted(rows)
    ensures Sorted(Upsert(rows, s))
  {
    hide Sorted;
    if rows == [] {
      SortedNone();
      SortedCons(s, []);
    } else {
      SortedFirst(rows);
      if s.ts < rows[0].ts {
        assert rows == [rows[0]] + rows[1..];
        SortedCons(s, rows);
      } else if s.ts == rows[0].ts {
        SortedCons(s, rows[1..]);
      } else {
        UpsertSorted(rows[1..], s);
        UpsertMembers(rows[1..], s);
        SortedCons(rows[0], Upsert(rows[1..], s));
      }
    }
  }

  /** A row that is not older than the others ends up last. */
  lemma {:induction false} UpsertLast(rows: Rows, s: Sample)
    requires Sorted(rows) && (rows != [] ==> Last(rows).ts <= s.ts)
    ensures Last(Upsert(rows, s)) == s
  {
    assert |rows| > 1 ==> rows[0].ts < Last(rows).ts;
    if rows != [] && s.ts > rows[0].ts {
      UpsertLast(rows[1..], s);
    }
  }

  /** A queue of one entity's samples in the order of their recording, none older than the stored rows. */
  predicate Ordered(rows: Rows, queue: seq<Sample>) {
    && (forall i, j :: 0 <= i < j < |queue| ==> queue[i].ts <= queue[j].ts)
    && (rows != [] && queue != [] ==> Last(rows).ts <= queue[0].ts)
  }

  lemma {:induction false} UpsertAllLast(rows: Rows, queue: seq<Sample>)
    requires Sorted(rows) && Ordered(rows, queue)
    ensures Sorted(UpsertAll(rows, queue))
    ensures queue != [] ==> UpsertAll(rows, queue) != [] && Last(UpsertAll(rows, queue)) == Last(queue)
    decreases |queue|
  {
    if queue != [] {
      UpsertSorted(rows, queue[0]);
      UpsertLast(rows, queue[0]);
      UpsertAllLast(Upsert(rows, queue[0]), queue[1..]);
    }
  }

  /** What is kept is the part of the rows from the first one that is new enough. */
  lemma {:induction false} KeepIsSuffix(rows: Rows, cutoff: int) returns (k: nat)
    requires Sorted(rows)
    ensures k <= |rows| && Keep(rows, cutoff) == rows[k..]
    ensures forall i :: 0 <= i < |rows| ==> (rows[i].ts < cutoff <==> i < k)
  {
    if rows == [] {
      k := 0;
    } else {
      var k' := KeepIsSuffix(rows[1..], cutoff);
      assert forall i :: 0 < i < |rows| ==> rows[i] == rows[1..][i - 1];
      k := if rows[0].ts < cutoff then k' + 1 else 0;
      assert |rows| > 1 ==> rows[0].ts < rows[1..][0].ts && (rows[1..][0].ts < cutoff <==> 0 < k');
      assert rows[0].ts < cutoff ==> [] + rows[1..][k'..] == rows[k..];
    }
  }

  lemma KeepRows(rows: Rows, cutoff: int)
    requires Sorted(rows)
    ensures Sorted(Keep(rows, cutoff))
    ensures rows != [] && Last(rows).ts >= cutoff ==> Keep(rows, cutoff) != [] && Last(Keep(rows, cutoff)) == Last(rows)
    ensures rows == [] || Last(rows).ts < cutoff ==> Keep(rows, cutoff) == []
  {
    hide Keep;
    var k := KeepIsSuffix(rows, cutoff);
  }

  lemma {:induction false} InsertAllRows(db: Table, pending: seq<Queued>, id: string)
    ensures RowsOf(InsertAll(db, pending), id) == UpsertAll(RowsOf(db, id), QueueOf(pending, id))
    decreases |pending|
  {
    if pending != [] {
      InsertAllRows(Insert(db, pending[0]), pending[1..], id);
      if pending[0].id == id {
        var q := QueueOf(pending, id);
        assert q[1..] == QueueOf(pending[1..], id);
      } else {
        assert [] + QueueOf(pending[1..], id) == QueueOf(pending[1..], id);
      }
    }
  }

  lemma QueueAppend(pending: seq<Queued>, q: Queued, id: string)
    ensures QueueOf(pending + [q], id) == QueueOf(pending, id) + (if q.id == id then [q.sample] else [])
  {
    QueueOfLast(pending + [q], id);
    assert (pending + [q])[..|pending|] == pending;
  }

  // ---------------------------------------------------------------- one entity

  /** A last sample so old that neither the heartbeat nor the minimum interval can still reject anything. */
  predicate Stale(c: Settings, last: Sample, t: int) {
    t - last.ts >= c.heartbeat && t - last.ts >= c.minInterval
  }

  /**
   The maintained store `a` remembers of one entity what the untouched store `p` last accepted, in its rows,
   its queue and its `_last` entry, unless that is stale.
   */
  predicate Remembers(c: Settings, a: Store, p: Store, t: int, id: string) {
    var rows, queue, last := RowsOf(a.db, id), QueueOf(a.pending, id), LastOf(p, id);
    && Sorted(rows) && Ordered(rows, queue)
    && (queue != [] ==> last == Some(Last(queue)))
    && (queue == [] && rows != [] ==> last == Some(Last(rows)))
    && (queue == [] && rows == [] && last.Some? ==> Stale(c, last.value, t))
    && (last.Some? ==> last.value.ts <= t)
    && (LastOf(a, id) == last || (LastOf(a, id).None? && Stale(c, last.value, t)))
  }

  lemma FlushedRows(st: Store, id: string)
    ensures RowsOf(Flushed(st).db, id) == UpsertAll(RowsOf(st.db, id), QueueOf(st.pending, id))
    ensures QueueOf(Flushed(st).pending, id) == [] && LastOf(Flushed(st), id) == LastOf(st, id)
  {
    hide UpsertAll;
    InsertAllRows(st.db, st.pending, id);
  }

  lemma ReopenedRows(st: Store, id: string)
    ensures RowsOf(Reopened(st).db, id) == RowsOf(Flushed(st).db, id) && QueueOf(Reopened(st).pending, id) == []
    ensures var rows := RowsOf(Flushed(st).db, id);
            LastOf(Reopened(st), id) == if rows == [] then None else Some(Last(rows))
  {
    hide Flushed;
  }

  lemma FlushRemembers(c: Settings, a: Store, p: Store, t: int, id: string)
    requires Remembers(c, a, p, t, id)
    ensures Remembers(c, Flushed(a), p, t, id)
    ensures Remembers(c, Reopened(a), p, t, id)
  {
    hide Stale, UpsertAll, Flushed, Reopened, QueueOf, Sorted;
    FlushedRows(a, id);
    ReopenedRows(a, id);
    UpsertAllLast(RowsOf(a.db, id), QueueOf(a.pending, id));
    UpsertNothing(RowsOf(a.db, id));
  }

  lemma UpsertNothing(rows: Rows)
    ensures UpsertAll(rows, []) == rows
  {
  }

  lemma PurgeRemembers(c: Settings, retention: nat, a: Store, p: Store, t: int, now: int, id: string)
    requires Remembers(c, a, p, t, id) && t <= now
    requires retention + 1 >= c.heartbeat && retention + 1 >= c.minInterval
    ensures Remembers(c, Purged(a, now - retention), p, now, id)
  {
    hide Keep;
    KeepRows(RowsOf(a.db, id), now - retention);
    assert RowsOf(Purged(a, now - retention).db, id) == Keep(RowsOf(a.db, id), now - retention);
  }

  lemma SameDecision(c: Settings, a: Store, p: Store, t: int, id: string, s: Sample)
    requires Remembers(c, a, p, t, id) && t <= s.ts
    ensures Accepts(c, LastOf(a, id), s) == Accepts(c, LastOf(p, id), s)
  {
  }

  lemma RecordOfAnother(c: Settings, a: Store, p: Store, t: int, id: string, who: string, s: Sample)
    requires Remembers(c, a, p, t, id) && who != id && t <= s.ts
    ensures Remembers(c, Recorded(c, a, who, s), Recorded(c, p, who, s), s.ts, id)
  {
    hide QueueOf, Accepts, Sorted, Ordered;
    QueueAppend(a.pending, Queued(who, s), id);
    var queue := QueueOf(a.pending, id);
    assert queue + [] == queue;
  }

  lemma OrderedAppend(rows: Rows, queue: seq<Sample>, s: Sample)
    requires Ordered(rows, queue)
    requires queue != [] ==> Last(queue).ts <= s.ts
    requires queue == [] && rows != [] ==> Last(rows).ts <= s.ts
    ensures Ordered(rows, queue + [s])
  {
  }

  lemma RecordOfSame(c: Settings, a: Store, p: Store, t: int, id: string, s: Sample)
    requires Remembers(c, a, p, t, id) && t <= s.ts
    ensures Remembers(c, Recorded(c, a, id, s), Recorded(c, p, id, s), s.ts, id)
  {
    SameDecision(c, a, p, t, id, s);
    hide QueueOf, Accepts, Sorted, Ordered;
    QueueAppend(a.pending, Queued(id, s), id);
    OrderedAppend(RowsOf(a.db, id), QueueOf(a.pending, id), s);
  }

  lemma RecordRemembers(c: Settings, a: Store, p: Store, t: int, id: string, who: string, s: Sample)
    requires Remembers(c, a, p, t, id) && Remembers(c, a, p, t, who) && t <= s.ts
    ensures Accepts(c, LastOf(a, who), s) == Accepts(c, LastOf(p, who), s)
    ensures Remembers(c, Recorded(c, a, who, s), Recorded(c, p, who, s), s.ts, id)
  {
    hide Remembers, Accepts, Recorded;
    SameDecision(c, a, p, t, who, s);
    if who == id {
      RecordOfSame(c, a, p, t, id, s);
    } else {
      RecordOfAnother(c, a, p, t, id, who, s);
    }
  }

  // ---------------------------------------------------------------- runs

  ghost predicate AllRemembered(c: Settings, a: Store, p: Store, t: int) {
    forall id :: Remembers(c, a, p, t, id)
  }

  lemma StepRemembers(c: Settings, retention: nat, a: Store, p: Store, t: int, op: Op)
    requires AllRemembered(c, a, p, t) && t <= Clock(op, t)
    requires retention + 1 >= c.heartbeat && retention + 1 >= c.minInterval
    ensures AllRemembered(c, Apply(c, retention, a, op), if op.Record? then Apply(c, retention, p, op) else p, Clock(op, t))
    ensures op.Record? ==> var s := Sample(op.at, op.value, op.text);
                           Accepts(c, LastOf(a, op.id), s) == Accepts(c, LastOf(p, op.id), s)
  {
    hide Remembers, Accepts, Recorded, Flushed, Purged, Reopened;
    match op
    case Record(who, value, text, at) =>
      forall id ensures Remembers(c, Apply(c, retention, a, op), Apply(c, retention, p, op), at, id) {
        RecordRemembers(c, a, p, t, id, who, Sample(at, value, text));
      }
      RecordRemembers(c, a, p, t, who, who, Sample(at, value, text));
    case Flush =>
      forall id ensures Remembers(c, Flushed(a), p, t, id) {
        FlushRemembers(c, a, p, t, id);
      }
    case Purge(at) =>
      var purged := Purged(a, at - retention);
      forall id ensures Remembers(c, purged, p, at, id) {
        PurgeRemembers(c, retention, a, p, t, at, id);
      }
    case Reopen =>
      forall id ensures Remembers(c, Reopened(a), p, t, id) {
        FlushRemembers(c, a, p, t, id);
      }
  }

  lemma {:induction false} RunsAgree(c: Settings, retention: nat, a: Store, p: Store, t: int, ops: seq<Op>)
    requires AllRemembered(c, a, p, t) && Timed(ops, t)
    requires retention + 1 >= c.heartbeat && retention + 1 >= c.minInterval
    ensures Decisions(c, retention, a, ops) == Decisions(c, retention, p, RecordsOnly(ops))
    decreases |ops|
  {
    hide AllRemembered, Accepts, Apply;
    if ops != [] {
      var op := ops[0];
      StepRemembers(c, retention, a, p, t, op);
      var p' := if op.Record? then Apply(c, retention, p, op) else p;
      RunsAgree(c, retention, Apply(c, retention, a, op), p', Clock(op, t), ops[1..]);
      if op.Record? {
        assert ([op] + RecordsOnly(ops[1..]))[1..] == RecordsOnly(ops[1..]);
      } else {
        assert [] + RecordsOnly(ops[1..]) == RecordsOnly(ops[1..]);
      }
    }
  }

  /** Every row of the table is in order and not in the future. */
  predicate TableUpTo(db: Table, t: int) {
    forall id :: id in db ==> Sorted(db[id]) && (db[id] != [] ==> Last(db[id]).ts <= t)
  }

  /**
   Flushes, purges and restarts are transparent: with a clock that never runs backwards and a retention of at
   least heartbeat - 1 and minimum interval - 1 seconds, the decisions are those of the record calls alone.
   */
  lemma MaintenanceIsTransparent(c: Settings, retention: nat, db: Table, t: int, ops: seq<Op>)
    requires TableUpTo(db, t) && Timed(ops, t)
    requires retention + 1 >= c.heartbeat && retention + 1 >= c.minInterval
    ensures Decisions(c, retention, Opened(db), ops) == Decisions(c, retention, Opened(db), RecordsOnly(ops))
  {
    forall id ensures Remembers(c, Opened(db), Opened(db), t, id) {
    }
    RunsAgree(c, retention, Opened(db), Opened(db), t, ops);
  }

  lemma Unroll(c: Settings, retention: nat, st: Store, op: Op, rest: seq<Op>)
    ensures Decisions(c, retention, st, [op] + rest)
         == (if op.Record? then [Accepts(c, LastOf(st, op.id), Sample(op.at, op.value, op.text))] else [])
            + Decisions(c, retention, Apply(c, retention, st, op), rest)
    ensures RecordsOnly([op] + rest) == (if op.Record? then [op] else []) + RecordsOnly(rest)
    ensures forall t :: Timed([op] + rest, t) <==> t <= Clock(op, t) && Timed(rest, Clock(op, t))
  {
    hide Accepts, Apply;
    assert ([op] + rest)[1..] == rest;
  }

  lemma ForgottenSample(id: string, s: Sample, cutoff: int)
    requires s.ts < cutoff
    ensures var st := Store(map[], map[id := s], [Queued(id, s)]);
            Reopened(Purged(Flushed(st), cutoff)) == Store(map[id := []], map[], [])
  {
    var queue := [Queued(id, s)];
    assert queue[1..] == [];
    assert Upsert([], s) == [s] + [] == [s];
    assert Insert(map[], queue[0]) == map[id := [s]];
    assert InsertAll(map[], queue) == InsertAll(Insert(map[], queue[0]), []) == map[id := [s]];
    assert Keep([s], cutoff) == [] + Keep([], cutoff);
    assert PurgeTable(map[id := [s]], cutoff) == map[id := []];
  }

  function RecordOf(id: string, s: Sample): Op {
    Record(id, s.value, s.text, s.ts)
  }

  /** A sample is recorded, flushed, purged and forgotten in a restart before the next one comes. */
  function Forgetting(id: string, first: Sample, second: Sample): seq<Op> {
    [RecordOf(id, first)] + ([Flush] + ([Purge(second.ts)] + ([Reopen] + ([RecordOf(id, second)] + []))))
  }

  lemma ForgettingIsTimed(c: Settings, retention: nat, id: string, first: Sample, second: Sample)
    requires first.ts == 0 <= second.ts
    ensures Timed(Forgetting(id, first, second), 0)
    ensures RecordsOnly(Forgetting(id, first, second)) == [RecordOf(id, first)] + ([RecordOf(id, second)] + [])
  {
    hide Decisions, Timed, RecordsOnly, Apply;
    var r1, r2, st := RecordOf(id, first), RecordOf(id, second), Opened(map[]);
    var o4 := [Reopen] + ([r2] + []);
    var o3 := [Purge(second.ts)] + o4;
    Unroll(c, retention, st, r1, [Flush] + o3);
    Unroll(c, retention, st, Flush, o3);
    Unroll(c, retention, st, Purge(second.ts), o4);
    Unroll(c, retention, st, Reopen, [r2] + []);
    Unroll(c, retention, st, r2, []);
    NoDecisions(c, retention, st);
  }

  lemma DecisionsOfTwo(c: Settings, retention: nat, id: string, first: Sample, second: Sample)
    requires !Accepts(c, Some(first), second)
    ensures Decisions(c, retention, Opened(map[]), [RecordOf(id, first)] + ([RecordOf(id, second)] + [])) == [true, false]
  {
    var r1, r2, st := RecordOf(id, first), RecordOf(id, second), Opened(map[]);
    AcceptsFirst(c, first);
    var st1 := Apply(c, retention, st, r1);
    assert LastOf(st1, id) == Some(first);
    hide Decisions, Accepts, Apply, RecordsOnly, Timed;
    Unroll(c, retention, st, r1, [r2] + []);
    Unroll(c, retention, st1, r2, []);
    NoDecisions(c, retention, Apply(c, retention, st1, r2));
  }

  lemma DecisionAfterMaintenance(c: Settings, retention: nat, st: Store, at: int, id: string, s: Sample)
    ensures Decisions(c, retention, st, [Flush] + ([Purge(at)] + ([Reopen] + ([RecordOf(id, s)] + []))))
         == [Accepts(c, LastOf(Reopened(Purged(Flushed(st), at - retention)), id), s)]
  {
    hide Decisions, Accepts, Flushed, Purged, Reopened, Recorded, RecordsOnly, Timed;
    var r, st1 := RecordOf(id, s), Flushed(st);
    var st2 := Purged(st1, at - retention);
    var st3 := Reopened(st2);
    Unroll(c, retention, st, Flush, [Purge(at)] + ([Reopen] + ([r] + [])));
    Unroll(c, retention, st1, Purge(at), [Reopen] + ([r] + []));
    Unroll(c, retention, st2, Reopen, [r] + []);
    Unroll(c, retention, st3, r, []);
    NoDecisions(c, retention, Recorded(c, st3, id, s));
  }

  lemma DecisionsWhenForgotten(c: Settings, retention: nat, id: string, first: Sample, second: Sample)
    requires first.ts < second.ts - retention
    ensures Decisions(c, retention, Opened(map[]), Forgetting(id, first, second)) == [true, true]
  {
    hide Decisions, Accepts, Flushed, Purged, Reopened, RecordsOnly, Timed;
    var r1, st := RecordOf(id, first), Opened(map[]);
    AcceptsFirst(c, first);
    AcceptsFirst(c, second);
    var st1 := Store(map[], map[id := first], [Queued(id, first)]);
    assert Apply(c, retention, st, r1) == st1;
    ForgottenSample(id, first, second.ts - retention);
    DecisionAfterMaintenance(c, retention, st1, second.ts, id, second);
    Unroll(c, retention, st, r1, [Flush] + ([Purge(second.ts)] + ([Reopen] + ([RecordOf(id, second)] + []))));
  }

  /** A sample that is flushed, purged and forgotten in a restart no longer holds back one that comes `retention + 1` seconds later. */
  lemma ForgettingChangesDecision(c: Settings, retention: nat, id: string, first: Sample, second: Sample) returns (ops: seq<Op>)
    requires first.ts == 0 && second.ts == retention + 1 && !Accepts(c, Some(first), second)
    ensures Timed(ops, 0) && TableUpTo(map[], 0)
    ensures Decisions(c, retention, Opened(map[]), ops) != Decisions(c, retention, Opened(map[]), RecordsOnly(ops))
  {
    hide Accepts, Decisions, RecordsOnly, Timed, Forgetting;
    ops := Forgetting(id, first, second);
    ForgettingIsTimed(c, retention, id, first, second);
    DecisionsOfTwo(c, retention, id, first, second);
    DecisionsWhenForgotten(c, retention, id, first, second);
  }

  lemma NoDecisions(c: Settings, retention: nat, st: Store)
    ensures Decisions(c, retention, st, []) == [] && RecordsOnly([]) == [] && forall t :: Timed([], t)
  {
  }

  lemma AcceptsFirst(c: Settings, s: Sample)
    ensures Accepts(c, None, s)
  {
  }

  /** The bound on the retention is exact. */
  lemma RetentionBound(c: Settings, retention: nat)
    ensures (forall db, t, ops :: TableUpTo(db, t) && Timed(ops, t)
                              ==> Decisions(c, retention, Opened(db), ops) == Decisions(c, retention, Opened(db), RecordsOnly(ops)))
       <==> retention + 1 >= c.heartbeat && retention + 1 >= c.minInterval
  {
    if retention + 1 >= c.heartbeat && retention + 1 >= c.minInterval {
      forall db, t, ops | TableUpTo(db, t) && Timed(ops, t)
        ensures Decisions(c, retention, Opened(db), ops) == Decisions(c, retention, Opened(db), RecordsOnly(ops))
      {
        MaintenanceIsTransparent(c, retention, db, t, ops);
      }
    } else if retention + 1 < c.heartbeat {
      var s := Some("on");
      var ops := ForgettingChangesDecision(c, retention, "x", Sample(0, None, s), Sample(retention + 1, None, s));
    } else {
      var ops := ForgettingChangesDecision(c, retention, "x", Sample(0, Some(0.0), None), Sample(retention + 1, Some(1.0), None));
    }
  }
}
