/**
 The history store (web/nasa_web/storage.py). The sample table is kept per entity as rows in ascending order
 of their timestamps, the primary key order of the SQL table.
 */
module Storage {
  import opened Basics

  datatype Sample = Sample(ts: int, value: Option<real>, text: Option<string>)

  type Rows = seq<Sample>
  type Table = map<string, Rows>

  predicate Sorted(rows: Rows) {
    forall i, j :: 0 <= i < j < |rows| ==> rows[i].ts < rows[j].ts
  }

  lemma SortedNone()
    ensures Sorted([])
  {
  }

  lemma SortedFirst(rows: Rows)
    requires Sorted(rows) && rows != []
    ensures Sorted(rows[1..]) && forall s :: s in rows[1..] ==> rows[0].ts < s.ts
  {
  }

  lemma SortedCons(first: Sample, rest: Rows)
    requires Sorted(rest) && forall s :: s in rest ==> first.ts < s.ts
    ensures Sorted([first] + rest)
  {
    var all := [first] + rest;
    forall i, j | 0 <= i < j < |all| ensures all[i].ts < all[j].ts {
      assert all[j] == rest[j - 1] && rest[j - 1] in rest;
      assert i > 0 ==> all[i] == rest[i - 1];
    }
  }

  function Last<T>(s: seq<T>): T
    requires s != []
  {
    s[|s| - 1]
  }

  function RowsOf(db: Table, id: string): Rows {
    if id in db then db[id] else []
  }

  /** INSERT OR REPLACE of one row. */
  function Upsert(rows: Rows, s: Sample): (r: Rows)
    ensures r != []
  {
    if rows == [] || s.ts < rows[0].ts then [s] + rows
    else if s.ts == rows[0].ts then [s] + rows[1..]
    else [rows[0]] + Upsert(rows[1..], s)
  }

  function UpsertAll(rows: Rows, queue: seq<Sample>): Rows
    decreases |queue|
  {
    if queue == [] then rows else UpsertAll(Upsert(rows, queue[0]), queue[1..])
  }

  datatype Queued = Queued(id: string, sample: Sample)

  /** The samples waiting for one entity, in order. */
  function QueueOf(pending: seq<Queued>, id: string): seq<Sample> {
    if pending == [] then []
    else SampleOf(pending[0], id) + QueueOf(pending[1..], id)
  }

  /** The last sample waiting for each entity. */
  function LatestQueued(pending: seq<Queued>): map<string, Sample> {
    if pending == [] then map[]
    else
      var n := |pending| - 1;
      LatestQueued(pending[..n])[pending[n].id := pending[n].sample]
  }

  /** The sample of one queue entry, if it is one of entity `id`. */
  function SampleOf(q: Queued, id: string): seq<Sample> {
    if q.id == id then [q.sample] else []
  }

  lemma {:induction false} QueueOfLast(pending: seq<Queued>, id: string)
    requires pending != []
    ensures QueueOf(pending, id) == QueueOf(pending[..|pending| - 1], id) + SampleOf(pending[|pending| - 1], id)
  {
    hide SampleOf;
    var n := |pending| - 1;
    var first, last := SampleOf(pending[0], id), SampleOf(pending[n], id);
    if n == 0 {
      assert pending[..0] == [] && pending[1..] == [];
      assert first + [] == [] + first;
    } else {
      var rest := pending[1..];
      QueueOfLast(rest, id);
      assert pending[..n][1..] == rest[..n - 1];
      assert first + (QueueOf(rest[..n - 1], id) + last) == (first + QueueOf(rest[..n - 1], id)) + last;
    }
  }

  /** What `flush` keeps for the entity table is the end of each entity's queue. */
  lemma {:induction false} LatestIsLast(pending: seq<Queued>, id: string)
    ensures id in LatestQueued(pending) <==> QueueOf(pending, id) != []
    ensures id in LatestQueued(pending) ==> LatestQueued(pending)[id] == Last(QueueOf(pending, id))
  {
    if pending != [] {
      LatestIsLast(pending[..|pending| - 1], id);
      QueueOfLast(pending, id);
    }
  }

  /** Value, text and time in the rows of the entity table; None before the first flush that concerns the entity. */
  type Entities = map<string, Option<Sample>>

  /** UPDATE of the entities that have a row. */
  function Update(entities: Entities, latest: map<string, Sample>): Entities {
    map id | id in entities :: if id in latest then Some(latest[id]) else entities[id]
  }

  function Insert(db: Table, q: Queued): Table {
    db[q.id := Upsert(RowsOf(db, q.id), q.sample)]
  }

  function InsertAll(db: Table, pending: seq<Queued>): Table
    decreases |pending|
  {
    if pending == [] then db else InsertAll(Insert(db, pending[0]), pending[1..])
  }

  /** DELETE of the rows before a cutoff. */
  function Keep(rows: Rows, cutoff: int): Rows {
    if rows == [] then [] else (if rows[0].ts < cutoff then [] else [rows[0]]) + Keep(rows[1..], cutoff)
  }

  function PurgeTable(db: Table, cutoff: int): Table {
    map id | id in db :: Keep(db[id], cutoff)
  }

  lemma {:induction false} KeepMembers(rows: Rows, cutoff: int)
    ensures forall s :: s in Keep(rows, cutoff) <==> s in rows && s.ts >= cutoff
  {
    if rows != [] {
      KeepMembers(rows[1..], cutoff);
      assert rows == [rows[0]] + rows[1..];
    }
  }

  /** The latest row of each entity, as the constructor reads it back. */
  function Latest(db: Table): map<string, Sample> {
    map id | id in db && db[id] != [] :: Last(db[id])
  }

  datatype Settings = Settings(heartbeat: int, minInterval: int)

  /** `_db`, `_last` and `_pending` */
  datatype Store = Store(db: Table, last: map<string, Sample>, pending: seq<Queued>)

  /** Whether `record` queues the sample, given the last one it queued for the entity. */
  predicate Accepts(c: Settings, last: Option<Sample>, s: Sample) {
    last.Some? ==>
      && !(last.value.value == s.value && last.value.text == s.text && s.ts - last.value.ts < c.heartbeat)
      && !(s.text.None? && s.ts - last.value.ts < c.minInterval)
  }

  function LastOf(st: Store, id: string): Option<Sample> {
    if id in st.last then Some(st.last[id]) else None
  }

  function Recorded(c: Settings, st: Store, id: string, s: Sample): Store {
    if Accepts(c, LastOf(st, id), s)
    then st.(last := st.last[id := s], pending := st.pending + [Queued(id, s)])
    else st
  }

  function Flushed(st: Store): Store {
    st.(db := InsertAll(st.db, st.pending), pending := [])
  }

  function Purged(st: Store, cutoff: int): Store {
    st.(db := PurgeTable(st.db, cutoff))
  }

  function Opened(db: Table): Store {
    Store(db, Latest(db), [])
  }

  function Reopened(st: Store): Store {
    Opened(Flushed(st).db)
  }

  // ---------------------------------------------------------------- queries

  /** SELECT ... WHERE ts < start ORDER BY ts DESC LIMIT 1 */
  function Before(rows: Rows, start: int): Option<Sample> {
    if rows == [] then None
    else if Last(rows).ts < start then Some(Last(rows))
    else Before(rows[..|rows| - 1], start)
  }

  /** SELECT ... WHERE ts BETWEEN start AND end ORDER BY ts */
  function Between(rows: Rows, start: int, end: int): (r: Rows)
    ensures |r| <= |rows|
  {
    if rows == [] then []
    else (if start <= rows[0].ts <= end then [rows[0]] else []) + Between(rows[1..], start, end)
  }

  /** Integer division of SQL, which cuts towards zero. */
  function Quotient(a: int, b: int): int
    requires b > 0
  {
    if a >= 0 then a / b else -(-a / b)
  }

  /** One row of the GROUP BY: the bucket time and the rows that fall into it. */
  datatype Bucket = Bucket(b: int, members: Rows)

  /** The buckets of ascending rows, in ascending order. */
  function Buckets(rows: Rows, width: int): seq<Bucket>
    requires width > 0
  {
    if rows == [] then []
    else
      var n := |rows| - 1;
      var before, b := Buckets(rows[..n], width), Quotient(rows[n].ts, width) * width;
      if before != [] && Last(before).b == b
      then before[|before| - 1 := Bucket(b, Last(before).members + [rows[n]])]
      else before + [Bucket(b, [rows[n]])]
  }

  function Values(rows: Rows): seq<real> {
    if rows == [] then []
    else Values(rows[..|rows| - 1]) + (if Last(rows).value.Some? then [Last(rows).value.value] else [])
  }

  function Sum(vs: seq<real>): real {
    if vs == [] then 0.0 else Sum(vs[..|vs| - 1]) + Last(vs)
  }

  function Minimum(vs: seq<real>): Option<real> {
    if vs == [] then None
    else match Minimum(vs[..|vs| - 1]) case None => Some(Last(vs)) case Some(m) => Some(Min(m, Last(vs)))
  }

  function Maximum(vs: seq<real>): Option<real> {
    if vs == [] then None
    else match Maximum(vs[..|vs| - 1]) case None => Some(Last(vs)) case Some(m) => Some(Max(m, Last(vs)))
  }

  function Average(vs: seq<real>): Option<real> {
    if vs == [] then None else Some(Sum(vs) / |vs| as real)
  }

  /** The byte order in which SQL compares texts. */
  predicate TextBelow(a: string, b: string) {
    b != [] && (a == [] || a[0] < b[0] || (a[0] == b[0] && TextBelow(a[1..], b[1..])))
  }

  function MaxText(rows: Rows): Option<string> {
    if rows == [] then None
    else
      match (MaxText(rows[..|rows| - 1]), Last(rows).text)
      case (None, t) => t
      case (m, None) => m
      case (Some(m), Some(t)) => Some(if TextBelow(m, t) then t else m)
  }

  /** One index of the five parallel lists that `history` returns. */
  datatype Point = Point(t: int, v: Option<real>, lo: Option<real>, hi: Option<real>, text: Option<string>)

  function RawPoint(t: int, s: Sample): Point {
    Point(t, s.value, s.value, s.value, s.text)
  }

  /** The nearest integer; halves go to the even one. */
  function Nearest(x: real): int {
    var below := x.Floor;
    var part := x - below as real;
    if part < 0.5 || (part == 0.5 && below % 2 == 0) then below else below + 1
  }

  /** round(x, 4) */
  function Round4(x: real): real {
    Nearest(x * 10000.0) as real / 10000.0
  }

  function BucketPoint(b: Bucket, start: int): Point {
    var vs := Values(b.members);
    var mean := match Average(vs) case None => None case Some(m) => Some(Round4(m));
    Point(MaxInt(b.b, start), mean, Minimum(vs), Maximum(vs), MaxText(b.members))
  }

  /** max(1, ceil((end - start) / maxPoints)) */
  function BucketWidth(start: int, end: int, maxPoints: nat): (w: int)
    requires maxPoints > 0
    ensures w >= 1
  {
    MaxInt(1, -(-(end - start) / maxPoints))
  }

  function RawPoints(rows: Rows): (ps: seq<Point>)
    ensures |ps| == |rows|
  {
    seq(|rows|, i requires 0 <= i < |rows| => RawPoint(rows[i].ts, rows[i]))
  }

  function BucketPoints(bs: seq<Bucket>, start: int): (ps: seq<Point>)
    ensures |ps| == |bs|
  {
    seq(|bs|, i requires 0 <= i < |bs| => BucketPoint(bs[i], start))
  }

  function LeadIn(rows: Rows, start: int): seq<Point> {
    match Before(rows, start)
    case None => []
    case Some(s) => [RawPoint(start, s)]
  }

  /** `history` */
  function History(rows: Rows, start: int, end: int, maxPoints: nat, aggregate: bool): seq<Point>
    requires maxPoints > 0
  {
    var window := Between(rows, start, end);
    LeadIn(rows, start) +
    if aggregate && |window| > maxPoints
    then BucketPoints(Buckets(window, BucketWidth(start, end, maxPoints)), start)
    else RawPoints(window)
  }

  /** SELECT value ... WHERE ts <= t AND value IS NOT NULL ORDER BY ts DESC LIMIT 1 */
  function ValueUpTo(rows: Rows, t: int): Option<real> {
    if rows == [] then None
    else if Last(rows).ts <= t && Last(rows).value.Some? then Last(rows).value
    else ValueUpTo(rows[..|rows| - 1], t)
  }

  /** SELECT value ... WHERE ts > t AND value IS NOT NULL ORDER BY ts ASC LIMIT 1 */
  function ValueAfter(rows: Rows, t: int): Option<real> {
    if rows == [] then None
    else if rows[0].ts > t && rows[0].value.Some? then rows[0].value
    else ValueAfter(rows[1..], t)
  }

  function ValueAt(rows: Rows, t: int): Option<real> {
    if ValueUpTo(rows, t).Some? then ValueUpTo(rows, t) else ValueAfter(rows, t)
  }

  /** The rows of entities with queued samples show the last of them, the others stay; no row comes or goes. */
  lemma UpdateIsLast(entities: Entities, pending: seq<Queued>)
    ensures Update(entities, LatestQueued(pending)).Keys == entities.Keys
    ensures forall id :: id in entities ==>
      var queue := QueueOf(pending, id);
      Update(entities, LatestQueued(pending))[id] == if queue == [] then entities[id] else Some(Last(queue))
  {
    forall id | id in entities
      ensures var queue := QueueOf(pending, id);
              Update(entities, LatestQueued(pending))[id] == if queue == [] then entities[id] else Some(Last(queue))
    {
      LatestIsLast(pending, id);
    }
  }

  // ---------------------------------------------------------------- the class

  class StorageDb {
    const settings: Settings
    var db: Table
    var last: map<string, Sample>
    var pending: seq<Queued>
    var entities: Entities

    constructor (db: Table, entities: Entities, settings: Settings)
      ensures this.settings == settings && View() == Opened(db) && this.entities == entities
    {
      this.settings, this.db, this.entities := settings, db, entities;
      last := Latest(db);
      pending := [];
    }

    function View(): Store
      reads this
    {
      Store(db, last, pending)
    }

    method Record(id: string, value: Option<real>, text: Option<string>, now: int) returns (queued: bool)
      modifies this
      ensures View() == Recorded(settings, old(View()), id, Sample(now, value, text))
      ensures queued <==> Accepts(settings, LastOf(old(View()), id), Sample(now, value, text))
      ensures entities == old(entities)
    {
      if id in last {
        var Sample(lastTs, lastValue, lastText) := last[id];
        var same := lastValue == value && lastText == text;
        if same && now - lastTs < settings.heartbeat {
          return false;
        }
        if text.None? && now - lastTs < settings.minInterval {
          return false;
        }
      }
      last := last[id := Sample(now, value, text)];
      pending := pending + [Queued(id, Sample(now, value, text))];
      return true;
    }

    method Flush() returns (count: nat)
      modifies this
      ensures View() == Flushed(old(View())) && count == |old(pending)|
      ensures entities.Keys == old(entities).Keys
      ensures forall id :: id in entities ==>
        var queue := QueueOf(old(pending), id);
        entities[id] == if queue == [] then old(entities)[id] else Some(Last(queue))
    {
      hide Insert, Update;
      var batch := pending;
      pending := [];
      if batch == [] {
        return 0;
      }
      var i := 0;
      while i < |batch|
        invariant 0 <= i <= |batch| && pending == [] && last == old(last) && entities == old(entities)
        invariant InsertAll(db, batch[i..]) == InsertAll(old(db), batch)
      {
        assert batch[i..][1..] == batch[i + 1..];
        db := Insert(db, batch[i]);
        i := i + 1;
      }
      ghost var written := db;
      var latest: map<string, Sample> := map[];
      i := 0;
      while i < |batch|
        invariant 0 <= i <= |batch| && pending == [] && last == old(last) && entities == old(entities) && db == written
        invariant latest == LatestQueued(batch[..i])
      {
        assert batch[..i + 1][..i] == batch[..i];
        latest := latest[batch[i].id := batch[i].sample];
        i := i + 1;
      }
      assert batch[..|batch|] == batch;
      UpdateIsLast(entities, batch);
      entities := Update(entities, latest);
      return |batch|;
    }

    method PurgeBefore(cutoff: int)
      modifies this`db
      ensures View() == Purged(old(View()), cutoff)
      ensures forall id, s :: s in RowsOf(db, id) <==> s in RowsOf(old(db), id) && s.ts >= cutoff
    {
      forall id ensures forall s :: s in Keep(RowsOf(db, id), cutoff) <==> s in RowsOf(db, id) && s.ts >= cutoff {
        KeepMembers(RowsOf(db, id), cutoff);
      }
      db := PurgeTable(db, cutoff);
      assert forall id :: RowsOf(db, id) == Keep(RowsOf(old(db), id), cutoff);
    }

    method Close() returns (file: Table)
      modifies this
      ensures View() == Flushed(old(View())) && file == db
      ensures entities.Keys == old(entities).Keys
      ensures forall id :: id in entities ==>
        var queue := QueueOf(old(pending), id);
        entities[id] == if queue == [] then old(entities)[id] else Some(Last(queue))
    {
      var n := Flush();
      return db;
    }

    method GetHistory(id: string, start: int, end: int, maxPoints: nat, aggregate: bool) returns (out: seq<Point>)
      requires maxPoints > 0
      ensures out == History(RowsOf(db, id), start, end, maxPoints, aggregate)
    {
      hide BucketPoint, Before, Between, Buckets, BucketWidth;
      var rows := RowsOf(db, id);
      out := [];
      var before := Before(rows, start);
      if before.Some? {
        out := out + [RawPoint(start, before.value)];
      }
      var window := Between(rows, start, end);
      var i := 0;
      if aggregate && |window| > maxPoints {
        var buckets := Buckets(window, BucketWidth(start, end, maxPoints));
        while i < |buckets|
          invariant 0 <= i <= |buckets|
          invariant out == LeadIn(rows, start) + BucketPoints(buckets, start)[..i]
        {
          out := out + [BucketPoint(buckets[i], start)];
          i := i + 1;
        }
      } else {
        while i < |window|
          invariant 0 <= i <= |window|
          invariant out == LeadIn(rows, start) + RawPoints(window)[..i]
        {
          out := out + [RawPoint(window[i].ts, window[i])];
          i := i + 1;
        }
      }
    }

    method ValuesAt(id: string, timestamps: seq<int>) returns (result: seq<Option<real>>)
      ensures |result| == |timestamps|
      ensures forall i :: 0 <= i < |timestamps| ==> result[i] == ValueAt(RowsOf(db, id), timestamps[i])
    {
      result := [];
      var i := 0;
      while i < |timestamps|
        invariant 0 <= i <= |timestamps| && |result| == i
        invariant forall j :: 0 <= j < i ==> result[j] == ValueAt(RowsOf(db, id), timestamps[j])
      {
        var row := ValueUpTo(RowsOf(db, id), timestamps[i]);
        if row.None? {
          row := ValueAfter(RowsOf(db, id), timestamps[i]);
        }
        result := result + [row];
        i := i + 1;
      }
    }
  }
}
