/**
 What holds over all runs of a message handler: any sequence of polls, reports from the unit and user
 commands, with a history of what was sent and why.
 */
module HandlerRuns {
  import opened Basics
  import opened Bytes
  import opened Packets
  import opened Handlers

  datatype Event = Polled | Reported(msg: MessageSet) | Asked(v: Option<int>)

  /** A command packet: its value and retry count, the value known when it was sent, and how often the retry counter had been reset. */
  datatype Sending = Sending(value: int, retry: nat, known: int, resets: nat)

  datatype History = History(
    state: State,
    log: seq<Sending>,
    resets: nat,
    commanded: set<int>,  // values users asked for
    reported: set<int>,   // values the unit reported
    held: set<int>)       // values that were current when a command was dropped

  const START_HISTORY := History(INITIAL, [], 0, {}, {}, {})

  /** The poll drops the pending command: it is guarded, or has been sent eleven times. */
  predicate Drops(c: Config, s: State) {
    Pending(c, s) && Poll(c, s).sent.Nothing?
  }

  function Next(c: Config, h: History, e: Event): History {
    match e
    case Polled =>
      var o := Poll(c, h.state);
      var log := if o.sent.Demand? then h.log + [Sending(o.sent.value, o.sent.retry, h.state.valIs, h.resets)] else h.log;
      if Drops(c, h.state)
      then h.(state := o.state, log := log, resets := h.resets + 1, held := h.held + {h.state.valIs})
      else h.(state := o.state, log := log)
    case Reported(msg) =>
      var s := Report(c, h.state, msg);
      h.(state := s, reported := if msg.number == c.number then h.reported + {s.valIs} else h.reported)
    case Asked(v) =>
      h.(state := Want(h.state, v), resets := h.resets + 1,
         commanded := if v.Some? then h.commanded + {v.value} else h.commanded)
  }

  function Run(c: Config, h: History, es: seq<Event>): History
    decreases |es|
  {
    if es == [] then h else Run(c, Next(c, h, es[0]), es[1..])
  }

  // ---------------------------------------------------------------- bursts

  /** The packet at `i` either opens a burst with retry count 0 or continues the one before it. */
  predicate BurstAt(log: seq<Sending>, i: nat)
    requires i < |log|
  {
    && log[i].retry <= 10
    && if i > 0 && log[i - 1].resets == log[i].resets
       then log[i].value == log[i - 1].value && log[i].retry == log[i - 1].retry + 1
       else log[i].retry == 0 && (i > 0 ==> log[i - 1].resets < log[i].resets)
  }

  /** Between two resets all packets carry one value and are numbered 0, 1, ..., k with k at most 10. */
  predicate Bursts(log: seq<Sending>) {
    forall i :: 0 <= i < |log| ==> BurstAt(log, i)
  }

  predicate BurstInvariant(h: History) {
    && Bursts(h.log) && h.state.retryCtr <= 11
    && (h.log != [] ==> h.log[|h.log| - 1].resets <= h.resets)
    && if h.state.retryCtr == 0 then h.log != [] ==> h.log[|h.log| - 1].resets < h.resets
       else
         && h.log != []
         && var last := h.log[|h.log| - 1];
            && last.resets == h.resets && last.retry + 1 == h.state.retryCtr
            && (h.state.valNew == last.value || h.state.valNew == INT_MAX)
  }

  lemma ReportKeeps(c: Config, s: State, msg: MessageSet)
    ensures var s' := Report(c, s, msg);
            s'.retryCtr == s.retryCtr && (s'.valNew == s.valNew || s'.valNew == INT_MAX)
  {
  }

  lemma BurstStep(c: Config, h: History, e: Event)
    requires BurstInvariant(h)
    ensures BurstInvariant(Next(c, h, e))
  {
    hide Report, Bursts;
    var h' := Next(c, h, e);
    if e.Reported? {
      ReportKeeps(c, h.state, e.msg);
    } else if h'.log != h.log {
      var n := |h.log|;
      assert h'.log[..n] == h.log && h'.log[n].retry == h.state.retryCtr && h'.log[n].resets == h.resets;
      BurstAppend(h.log, h'.log[n]);
    }
  }

  lemma BurstAppend(log: seq<Sending>, p: Sending)
    requires Bursts(log) && p.retry <= 10
    requires p.retry == 0 ==> log != [] ==> log[|log| - 1].resets < p.resets
    requires p.retry > 0 ==> log != [] && log[|log| - 1].resets == p.resets
                             && log[|log| - 1].value == p.value && log[|log| - 1].retry + 1 == p.retry
    ensures Bursts(log + [p])
  {
    var l := log + [p];
    forall i | 0 <= i < |l| ensures BurstAt(l, i) {
      if i < |log| {
        assert BurstAt(log, i);
      }
    }
  }

  lemma {:induction false} BurstRun(c: Config, h: History, es: seq<Event>)
    requires BurstInvariant(h)
    ensures BurstInvariant(Run(c, h, es))
    decreases |es|
  {
    if es != [] {
      BurstStep(c, h, es[0]);
      BurstRun(c, Next(c, h, es[0]), es[1..]);
    }
  }

  /** In every run, the command packets fall into bursts of at most eleven. */
  lemma BurstStructure(c: Config, es: seq<Event>)
    ensures Bursts(Run(c, START_HISTORY, es).log)
  {
    BurstRun(c, START_HISTORY, es);
  }

  // ---------------------------------------------------------------- provenance

  predicate Explained(c: Config, h: History, p: Sending) {
    && (p.value in h.commanded || (p.value in h.held && p.value in h.reported))
    && p.value != p.known
    && (c.initialReadOut ==> p.known != INT_MAX && p.known in h.reported)
    && c.dataType != READ && !Guarded(c)
  }

  predicate ProvenanceInvariant(c: Config, h: History) {
    && (h.state.valIs == INT_MAX || h.state.valIs in h.reported)
    && (h.state.valNew == INT_MAX || h.state.valNew in h.commanded || h.state.valNew in h.held)
    && (forall v :: v in h.held && v != INT_MAX ==> v in h.reported)
    && (forall i :: 0 <= i < |h.log| ==> Explained(c, h, h.log[i]))
  }

  lemma ProvenanceStep(c: Config, h: History, e: Event)
    requires ProvenanceInvariant(c, h)
    ensures ProvenanceInvariant(c, Next(c, h, e))
  {
    hide Meaning, MessageTypeOf;
    var h' := Next(c, h, e);
    forall i | 0 <= i < |h'.log| ensures Explained(c, h', h'.log[i]) {
      assert i < |h.log| ==> Explained(c, h, h.log[i]);
    }
  }

  lemma {:induction false} ProvenanceRun(c: Config, h: History, es: seq<Event>)
    requires ProvenanceInvariant(c, h)
    ensures ProvenanceInvariant(c, Run(c, h, es))
    decreases |es|
  {
    if es != [] {
      ProvenanceStep(c, h, es[0]);
      ProvenanceRun(c, Next(c, h, es[0]), es[1..]);
    }
  }

  /**
   In every run, each command packet carries a value a user asked for, or one the unit had reported and that
   was current when a command was dropped; it differs from the value known; a read handler and a guarded write
   handler send none; and with initial read-out none is sent before the unit has reported a value.
   */
  lemma Provenance(c: Config, es: seq<Event>, i: nat)
    requires i < |Run(c, START_HISTORY, es).log|
    ensures Explained(c, Run(c, START_HISTORY, es), Run(c, START_HISTORY, es).log[i])
  {
    ProvenanceRun(c, START_HISTORY, es);
  }

  /** Nothing has been reported, so with initial read-out nothing has been commanded on the line. */
  lemma SilentBeforeFirstReport(c: Config, es: seq<Event>)
    requires c.initialReadOut && Run(c, START_HISTORY, es).reported == {}
    ensures Run(c, START_HISTORY, es).log == []
  {
    if Run(c, START_HISTORY, es).log != [] {
      Provenance(c, es, 0);
    }
  }

  lemma GuardedIsSilent(c: Config, es: seq<Event>)
    requires Guarded(c) || c.dataType == READ
    ensures Run(c, START_HISTORY, es).log == []
  {
    if Run(c, START_HISTORY, es).log != [] {
      Provenance(c, es, 0);
    }
  }

  // ---------------------------------------------------------------- an unanswered command

  predicate MaySend(c: Config, s: State) {
    c.dataType != READ && !Guarded(c) && (s.valIs != INT_MAX || !c.initialReadOut)
  }

  function Polls(es: seq<Event>): nat {
    if es == [] then 0 else (if es[0].Polled? then 1 else 0) + Polls(es[1..])
  }

  /** Only polls, and reports that repeat the value known. */
  predicate NothingNew(c: Config, valIs: int, es: seq<Event>) {
    forall i :: 0 <= i < |es| ==>
      es[i].Polled? || (es[i].Reported? && Report(c, State(valIs, INT_MAX, 0), es[i].msg).valIs == valIs)
  }

  /** The packets of one burst from retry count `r` on. */
  function Ladder(v: int, known: int, resets: nat, r: nat, k: nat): (l: seq<Sending>)
    ensures |l| == k
    decreases k
  {
    if k == 0 then [] else [Sending(v, r, known, resets)] + Ladder(v, known, resets, r + 1, k - 1)
  }

  /** Nothing will be sent while nothing new is reported. */
  predicate Quiet(c: Config, s: State) {
    !Pending(c, s) || (s.valIs == INT_MAX && c.initialReadOut)
  }

  lemma {:induction false} QuietStays(c: Config, h: History, es: seq<Event>)
    requires Quiet(c, h.state) && NothingNew(c, h.state.valIs, es)
    ensures Run(c, h, es).log == h.log && Run(c, h, es).state.valIs == h.state.valIs
    decreases |es|
  {
    if es != [] {
      QuietStep(c, h, es[0]);
      assert NothingNew(c, h.state.valIs, es[1..]);
      hide Next, NothingNew;
      QuietStays(c, Next(c, h, es[0]), es[1..]);
    }
  }

  lemma QuietStep(c: Config, h: History, e: Event)
    requires Quiet(c, h.state) && NothingNew(c, h.state.valIs, [e])
    ensures var h' := Next(c, h, e);
            h'.log == h.log && h'.state.valIs == h.state.valIs && Quiet(c, h'.state)
  {
    hide Meaning, MessageTypeOf;
    assert [e][0] == e;
  }

  /** The unit reports the handler's value at least once. */
  predicate Repeats(c: Config, es: seq<Event>) {
    exists i :: 0 <= i < |es| && es[i].Reported? && es[i].msg.number == c.number
  }

  /** The unit repeats the value after poll number `n + 1`. */
  predicate RepeatsAfter(c: Config, es: seq<Event>, n: nat) {
    if es == [] then false
    else if !es[0].Polled? then RepeatsAfter(c, es[1..], n)
    else if n > 0 then RepeatsAfter(c, es[1..], n - 1)
    else Repeats(c, es[1..])
  }

  /** A command has been dropped: the old value is wanted, until the unit has repeated it. */
  function Dropped(valIs: int, repeated: bool): State {
    State(valIs, if repeated then INT_MAX else valIs, 0)
  }

  lemma {:induction false} DroppedStays(c: Config, h: History, es: seq<Event>, repeated: bool)
    requires h.state == Dropped(h.state.valIs, repeated) && NothingNew(c, h.state.valIs, es)
    ensures Run(c, h, es).state == Dropped(h.state.valIs, repeated || Repeats(c, es))
    ensures Run(c, h, es).log == h.log
    decreases |es|
  {
    if es != [] {
      var own := es[0].Reported? && es[0].msg.number == c.number;
      DroppedStep(c, h, es[0], repeated);
      assert NothingNew(c, h.state.valIs, es[1..]);
      DroppedStays(c, Next(c, h, es[0]), es[1..], repeated || own);
      RepeatsFirst(c, es);
    }
  }

  lemma RepeatsFirst(c: Config, es: seq<Event>)
    requires es != []
    ensures Repeats(c, es) <==> (es[0].Reported? && es[0].msg.number == c.number) || Repeats(c, es[1..])
  {
    assert forall i :: 0 < i < |es| ==> es[i] == es[1..][i - 1];
  }

  lemma DroppedStep(c: Config, h: History, e: Event, repeated: bool)
    requires h.state == Dropped(h.state.valIs, repeated) && NothingNew(c, h.state.valIs, [e])
    ensures var h' := Next(c, h, e);
            && h'.state == Dropped(h.state.valIs, repeated || (e.Reported? && e.msg.number == c.number))
            && h'.log == h.log
  {
    hide Meaning, MessageTypeOf;
    assert [e][0] == e;
  }

  /** The log and state when a command pending in `h` has met nothing new in `es`. */
  predicate Climbed(c: Config, h: History, es: seq<Event>, after: History)
    requires h.state.retryCtr <= 11
  {
    var s, n, left := h.state, Polls(es), 11 - h.state.retryCtr;
    && after.log == h.log + Ladder(s.valNew, s.valIs, h.resets, s.retryCtr, MinInt(n, left))
    && after.state == if n <= left then s.(retryCtr := s.retryCtr + n) else Dropped(s.valIs, RepeatsAfter(c, es, left))
  }

  lemma ClimbOne(c: Config, h: History, es: seq<Event>, after: History)
    requires MaySend(c, h.state) && Pending(c, h.state) && h.state.retryCtr <= 10
    requires es != [] && es[0].Polled? && Climbed(c, Next(c, h, Polled), es[1..], after)
    ensures Climbed(c, h, es, after)
  {
    var s, n, r := h.state, Polls(es[1..]), h.state.retryCtr;
    var first := Sending(s.valNew, r, s.valIs, h.resets);
    assert Next(c, h, Polled) == h.(state := s.(retryCtr := r + 1), log := h.log + [first]);
    hide Next, Poll, Pending, MaySend, Ladder, Dropped;
    LadderFirst(s.valNew, s.valIs, h.resets, r, MinInt(n, 10 - r), h.log);
    assert Polls(es) == n + 1;
    assert RepeatsAfter(c, es, 11 - r) == RepeatsAfter(c, es[1..], 10 - r);
  }

  lemma LadderFirst(v: int, known: int, resets: nat, r: nat, k: nat, log: seq<Sending>)
    ensures (log + [Sending(v, r, known, resets)]) + Ladder(v, known, resets, r + 1, k)
         == log + Ladder(v, known, resets, r, k + 1)
  {
    var first, later := Sending(v, r, known, resets), Ladder(v, known, resets, r + 1, k);
    assert Ladder(v, known, resets, r, k + 1) == [first] + later;
    assert (log + [first]) + later == log + ([first] + later);
  }

  lemma RepeatChangesNothing(c: Config, h: History, msg: MessageSet)
    requires Pending(c, h.state) && Report(c, State(h.state.valIs, INT_MAX, 0), msg).valIs == h.state.valIs
    ensures Next(c, h, Reported(msg)).state == h.state
    ensures Next(c, h, Reported(msg)).log == h.log && Next(c, h, Reported(msg)).resets == h.resets
  {
  }

  lemma DropNow(c: Config, h: History, es: seq<Event>)
    requires MaySend(c, h.state) && Pending(c, h.state) && h.state.retryCtr == 11
    requires es != [] && es[0].Polled? && NothingNew(c, h.state.valIs, es[1..])
    ensures Climbed(c, h, es, Run(c, h, es))
  {
    var h' := Next(c, h, Polled);
    assert h'.state == Dropped(h.state.valIs, false) && h'.log == h.log;
    hide Next, Poll, Pending, MaySend, NothingNew, Repeats, Dropped;
    DroppedStays(c, h', es[1..], false);
    EmptyLadder(h);
  }

  lemma {:induction false} PendingClimbs(c: Config, h: History, es: seq<Event>)
    requires MaySend(c, h.state) && Pending(c, h.state) && h.state.retryCtr <= 11
    requires NothingNew(c, h.state.valIs, es)
    ensures Climbed(c, h, es, Run(c, h, es))
    decreases |es|
  {
    hide Report, Ladder, Dropped;
    if es == [] {
      EmptyLadder(h);
    } else {
      var s, h' := h.state, Next(c, h, es[0]);
      assert NothingNew(c, s.valIs, es[1..]);
      if es[0].Reported? {
        RepeatChangesNothing(c, h, es[0].msg);
        PendingClimbs(c, h', es[1..]);
      } else if s.retryCtr <= 10 {
        PendingClimbs(c, h', es[1..]);
        ClimbOne(c, h, es, Run(c, h, es));
      } else {
        DropNow(c, h, es);
      }
    }
  }

  lemma EmptyLadder(h: History)
    ensures h.log + Ladder(h.state.valNew, h.state.valIs, h.resets, h.state.retryCtr, 0) == h.log
  {
  }

  /**
   A command that meets no changed report is sent exactly min(n, 11) times in n polls, numbered from 0. The
   twelfth poll drops it: the old value is wanted from then on, until the unit repeats it.
   */
  lemma UnansweredCommand(c: Config, h: History, v: int, es: seq<Event>)
    requires MaySend(c, h.state) && v != INT_MAX && v != h.state.valIs && NothingNew(c, h.state.valIs, es)
    ensures var after, n := Run(c, h, [Asked(Some(v))] + es), Polls(es);
            && after.log == h.log + Ladder(v, h.state.valIs, h.resets + 1, 0, MinInt(n, 11))
            && after.state == if n <= 11 then State(h.state.valIs, v, n) else Dropped(h.state.valIs, RepeatsAfter(c, es, 11))
  {
    hide Report, Ladder;
    assert ([Asked(Some(v))] + es)[1..] == es;
    PendingClimbs(c, Next(c, h, Asked(Some(v))), es);
  }

  lemma {:induction false} RunAppend(c: Config, h: History, es: seq<Event>, more: seq<Event>)
    ensures Run(c, h, es + more) == Run(c, Run(c, h, es), more)
    decreases |es|
  {
    hide Next;
    if es == [] {
      assert es + more == more;
    } else {
      RunAppend(c, Next(c, h, es[0]), es[1..], more);
      assert (es + more)[1..] == es[1..] + more;
    }
  }

  /** The value a handler that knows `valIs` knows after a report. */
  function Known(c: Config, valIs: int, msg: MessageSet): int {
    Report(c, State(valIs, INT_MAX, 0), msg).valIs
  }

  /** A changed value reported while the old one is still wanted makes the old one pending; nothing else does. */
  lemma ReportAfterDrop(c: Config, h: History, valIs: int, repeated: bool, msg: MessageSet)
    requires h.state == Dropped(valIs, repeated) && valIs != INT_MAX && c.dataType != READ
    ensures var h', x := Next(c, h, Reported(msg)), Known(c, valIs, msg);
            && h'.state.valIs == x && h'.log == h.log && h'.resets == h.resets
            && if x != valIs && !repeated
               then Pending(c, h'.state) && h'.state == State(x, valIs, 0)
               else !Pending(c, h'.state)
  {
    hide Meaning, MessageTypeOf;
  }

  /** The commands of a handler that has just been told `x` while `held` was still wanted, in `n` polls. */
  function Undoing(held: int, x: int, resets: nat, n: nat): seq<Sending> {
    Ladder(held, x, resets, 0, MinInt(n, 11))
  }

  /**
   A dropped command undoes what happens at the unit. A command is sent eleven times and dropped; then the unit
   reports something, and further polls follow. They answer with min(n, 11) commands for the old value exactly
   if the report changes the known value (to a known one, under initial read-out) and the unit has not repeated
   the old value in between; otherwise nothing more is sent.
   */
  lemma DroppedCommandUndoesChanges(c: Config, h: History, v: int, es: seq<Event>, msg: MessageSet, es': seq<Event>)
    requires MaySend(c, h.state) && h.state.valIs != INT_MAX && v != INT_MAX && v != h.state.valIs
    requires NothingNew(c, h.state.valIs, es) && Polls(es) > 11
    requires NothingNew(c, Known(c, h.state.valIs, msg), es')
    ensures var held, x := h.state.valIs, Known(c, h.state.valIs, msg);
            var dropped := Run(c, h, [Asked(Some(v))] + es);
            var after := Run(c, dropped, [Reported(msg)] + es');
            var undone := x != held && !RepeatsAfter(c, es, 11) && (x != INT_MAX || !c.initialReadOut);
            && dropped.log == h.log + Ladder(v, held, h.resets + 1, 0, 11)
            && after.log == dropped.log + if undone then Undoing(held, x, dropped.resets, Polls(es')) else []
  {
    hide Ladder, NothingNew, RepeatsAfter, Next, Poll, Report;
    var x, dropped := Known(c, h.state.valIs, msg), Run(c, h, [Asked(Some(v))] + es);
    UnansweredCommand(c, h, v, es);
    ReportAfterDrop(c, dropped, h.state.valIs, RepeatsAfter(c, es, 11), msg);
    var h' := Next(c, dropped, Reported(msg));
    assert ([Reported(msg)] + es')[1..] == es';
    hide Known, Dropped;
    if Pending(c, h'.state) && MaySend(c, h'.state) {
      PendingClimbs(c, h', es');
    } else {
      QuietStays(c, h', es');
    }
  }
}
