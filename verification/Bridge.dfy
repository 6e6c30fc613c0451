/**
 The bridge (src/nasa_hass_bridge.cpp): handlers found by message number and by topic, each operation one
 critical section. Seen from one handler, a run of the bridge is a run of that handler alone.
 */
module Bridge {
  import opened Basics
  import opened Bytes
  import opened Packets
  import opened Handlers
  import opened HandlerRuns

  type Configs = map<word, Config>
  type States = map<word, State>

  /** The packets of a poll, and the packet number that comes next. */
  datatype Round = Round(packets: seq<Packet>, next: byte)

  /** All handlers in `order` exist. */
  predicate Listed(cs: Configs, ss: States, order: seq<word>) {
    forall i :: 0 <= i < |order| ==> order[i] in cs && order[i] in ss
  }

  /** One poll of the handlers in `order`. */
  function PollAll(cs: Configs, ss: States, order: seq<word>, next: byte): Round
    requires Listed(cs, ss, order)
  {
    if order == [] then Round([], next)
    else
      var n := |order| - 1;
      var before := PollAll(cs, ss, order[..n], next);
      var sent := Poll(cs[order[n]], ss[order[n]]).sent;
      Round(before.packets + PacketsFor(cs[order[n]], sent, before.next),
            if sent.Nothing? then before.next else Byte(before.next + 1))
  }

  lemma ListedPrefix(cs: Configs, ss: States, order: seq<word>, i: nat)
    requires Listed(cs, ss, order) && i <= |order|
    ensures Listed(cs, ss, order[..i]) && (i < |order| ==> order[i] in cs && order[i] in ss)
  {
  }

  /** The packets and the next packet number after one more handler has been polled. */
  lemma PollOneMore(cs: Configs, ss: States, order: seq<word>, i: nat, next: byte, pkts: seq<Packet>)
    requires i < |order| && Listed(cs, ss, order)
    ensures Listed(cs, ss, order[..i]) && Listed(cs, ss, order[..i + 1]) && order[i] in cs && order[i] in ss
    ensures var before, after := PollAll(cs, ss, order[..i], next), PollAll(cs, ss, order[..i + 1], next);
            var sent := Poll(cs[order[i]], ss[order[i]]).sent;
            && (pkts + before.packets) + PacketsFor(cs[order[i]], sent, before.next) == pkts + after.packets
            && after.next == if sent.Nothing? then before.next else Byte(before.next + 1)
  {
    hide Poll, PacketsFor, Byte;
    ListedPrefix(cs, ss, order, i);
    ListedPrefix(cs, ss, order, i + 1);
    assert order[..i + 1][..i] == order[..i];
    var before, sent := PollAll(cs, ss, order[..i], next), Poll(cs[order[i]], ss[order[i]]).sent;
    assert (pkts + before.packets) + PacketsFor(cs[order[i]], sent, before.next)
        == pkts + (before.packets + PacketsFor(cs[order[i]], sent, before.next));
  }

  lemma NothingPolled(cs: Configs, ss: States, next: byte)
    ensures Listed(cs, ss, []) && PollAll(cs, ss, [], next) == Round([], next)
    ensures cs.Keys == ss.Keys ==> PolledStates(cs, ss, []) == ss
  {
    hide Poll;
  }

  lemma OneMoreKey(order: seq<word>, i: nat)
    requires i < |order| && Ascending(order)
    ensures order[i] !in order[..i]
    ensures forall x :: x in order[..i + 1] <==> x in order[..i] || x == order[i]
  {
    assert order[..i + 1] == order[..i] + [order[i]];
  }

  predicate Numbered(p: Packet, number: word, packetNumber: byte) {
    p.command.packetNumber == packetNumber && p.body.Messages?
    && |p.body.sets| == 1 && p.body.sets[0].number == number
  }

  lemma PacketIsNumbered(c: Config, sent: Sent, next: byte)
    requires !sent.Nothing?
    ensures |PacketsFor(c, sent, next)| == 1 && Numbered(PacketsFor(c, sent, next)[0], c.number, next)
  {
  }

  lemma FirstNumber(next: byte)
    ensures Byte(next + 0) == next
  {
  }

  lemma NextNumber(next: nat, n: nat)
    ensures Byte(Byte(next + n) + 1) == Byte(next + (n + 1))
  {
  }

  /** The packets carry `numbers`, in ascending order, under consecutive packet numbers from `next` on. */
  predicate InSequence(r: Round, numbers: seq<word>, next: byte) {
    && |numbers| == |r.packets| && Ascending(numbers)
    && r.next == Byte(next + |numbers|)
    && forall i :: 0 <= i < |numbers| ==> Numbered(r.packets[i], numbers[i], Byte(next + i))
  }

  lemma SequenceGrows(r: Round, numbers: seq<word>, next: byte, p: Packet, number: word)
    requires InSequence(r, numbers, next) && Numbered(p, number, r.next)
    requires forall x :: x in numbers ==> x < number
    ensures InSequence(Round(r.packets + [p], Byte(r.next + 1)), numbers + [number], next)
  {
    hide Numbered, Byte;
    var n := |numbers|;
    NextNumber(next, n);
    assert forall i :: 0 <= i < n ==> numbers[i] in numbers;
    forall i | 0 <= i < n + 1
      ensures Numbered((r.packets + [p])[i], (numbers + [number])[i], Byte(next + i))
    {
    }
  }

  lemma OneSent(ps: seq<Packet>)
    requires |ps| == 1
    ensures ps == [ps[0]]
  {
  }

  lemma LastOfOrder(order: seq<word>, n: nat)
    requires |order| == n + 1 && Ascending(order)
    ensures Ascending(order[..n]) && forall x :: x in order[..n] ==> x < order[n]
  {
    forall x | x in order[..n] ensures x < order[n] {
      var i :| 0 <= i < n && order[..n][i] == x;
      assert order[i] == x;
    }
  }

  /** One poll sends at most one packet per handler, in ascending message numbers, under consecutive packet numbers. */
  lemma {:induction false} PollIsOrdered(cs: Configs, ss: States, order: seq<word>, next: byte) returns (numbers: seq<word>)
    requires Ascending(order) && Listed(cs, ss, order)
    requires forall i :: 0 <= i < |order| ==> cs[order[i]].number == order[i]
    ensures InSequence(PollAll(cs, ss, order, next), numbers, next) && forall x :: x in numbers ==> x in order
    decreases |order|
  {
    hide Poll, PacketsFor, Numbered, Byte, Ascending, InSequence;
    if order == [] {
      numbers := [];
      EmptySequence(next);
    } else {
      var n := |order| - 1;
      LastOfOrder(order, n);
      numbers := PollIsOrdered(cs, ss, order[..n], next);
      var before, sent := PollAll(cs, ss, order[..n], next), Poll(cs[order[n]], ss[order[n]]).sent;
      var ps := PacketsFor(cs[order[n]], sent, before.next);
      if sent.Nothing? {
        assert before.packets + [] == before.packets;
      } else {
        PacketIsNumbered(cs[order[n]], sent, before.next);
        SequenceGrows(before, numbers, next, ps[0], order[n]);
        OneSent(ps);
        numbers := numbers + [order[n]];
      }
    }
  }

  lemma EmptySequence(next: byte)
    ensures InSequence(Round([], next), [], next)
  {
    FirstNumber(next);
  }

  /** What happens to the bridge: everything is polled, a message is reported, or a topic's handler is asked for a value. */
  datatype BridgeEvent = AllPolled | MessageReported(msg: MessageSet) | HandlerAsked(number: word, v: Option<int>)

  /** The event one handler sees, if any. */
  function Seen(e: BridgeEvent, number: word): Option<Event> {
    match e
    case AllPolled => Some(Polled)
    case MessageReported(msg) => if msg.number == number then Some(Reported(msg)) else None
    case HandlerAsked(n, v) => if n == number then Some(Asked(v)) else None
  }

  function After(c: Config, s: State, e: Option<Event>): State {
    match e
    case None => s
    case Some(Polled) => Poll(c, s).state
    case Some(Reported(msg)) => Report(c, s, msg)
    case Some(Asked(v)) => Want(s, v)
  }

  /** One step of the whole bridge. */
  function BridgeStep(cs: Configs, ss: States, e: BridgeEvent): (r: States)
    requires cs.Keys == ss.Keys
    ensures r.Keys == ss.Keys
  {
    map number | number in ss :: After(cs[number], ss[number], Seen(e, number))
  }

  function BridgeRun(cs: Configs, ss: States, es: seq<BridgeEvent>): (r: States)
    requires cs.Keys == ss.Keys
    ensures r.Keys == ss.Keys
    decreases |es|
  {
    if es == [] then ss else BridgeRun(cs, BridgeStep(cs, ss, es[0]), es[1..])
  }

  function Projection(es: seq<BridgeEvent>, number: word): seq<Event> {
    if es == [] then []
    else (match Seen(es[0], number) case Some(e) => [e] case None => []) + Projection(es[1..], number)
  }

  /** Every handler of a bridge goes through a run of its own: the events meant for others do not touch it. */
  lemma {:induction false} HandlersAreIndependent(cs: Configs, ss: States, es: seq<BridgeEvent>, number: word, h: History)
    requires cs.Keys == ss.Keys && number in ss && h.state == ss[number]
    ensures BridgeRun(cs, ss, es)[number] == Run(cs[number], h, Projection(es, number)).state
    decreases |es|
  {
    hide Poll, Report, Want;
    if es != [] {
      var ss' := BridgeStep(cs, ss, es[0]);
      match Seen(es[0], number)
      case None =>
        HandlersAreIndependent(cs, ss', es[1..], number, h);
        assert [] + Projection(es[1..], number) == Projection(es[1..], number);
      case Some(e) =>
        var h' := Next(cs[number], h, e);
        HandlersAreIndependent(cs, ss', es[1..], number, h');
        assert ([e] + Projection(es[1..], number))[1..] == Projection(es[1..], number);
    }
  }

  // ---------------------------------------------------------------- the packets of a run

  /** The packets that `pkts_tx` receives over a run. */
  function Emitted(cs: Configs, ss: States, es: seq<BridgeEvent>, order: seq<word>, next: byte): seq<Packet>
    requires cs.Keys == ss.Keys && forall i :: 0 <= i < |order| ==> order[i] in cs
    decreases |es|
  {
    if es == [] then []
    else
      var r := if es[0].AllPolled? then PollAll(cs, ss, order, next) else Round([], next);
      r.packets + Emitted(cs, BridgeStep(cs, ss, es[0]), es[1..], order, r.next)
  }

  predicate IsCommand(p: Packet, number: word) {
    p.body.Messages? && |p.body.sets| == 1 && p.body.sets[0].number == number && p.command.dataType != READ
  }

  /** The command packets for one message number, in order. */
  function CommandsOf(ps: seq<Packet>, number: word): seq<Packet> {
    if ps == [] then [] else (if IsCommand(ps[0], number) then [ps[0]] else []) + CommandsOf(ps[1..], number)
  }

  lemma {:induction false} CommandsAppend(a: seq<Packet>, b: seq<Packet>, number: word)
    ensures CommandsOf(a + b, number) == CommandsOf(a, number) + CommandsOf(b, number)
  {
    hide IsCommand;
    if a == [] {
      assert a + b == b;
    } else {
      CommandsAppend(a[1..], b, number);
      assert (a + b)[1..] == a[1..] + b;
      var first := if IsCommand(a[0], number) then [a[0]] else [];
      assert first + (CommandsOf(a[1..], number) + CommandsOf(b, number))
          == (first + CommandsOf(a[1..], number)) + CommandsOf(b, number);
    }
  }

  /** The packet that carries one entry of a handler's log, under whatever packet number. */
  predicate Carries(c: Config, p: Packet, s: Sending) {
    p == BroadcastPacket(c, c.dataType, s.value, Byte(s.retry), p.command.packetNumber)
  }

  predicate AllCarry(c: Config, ps: seq<Packet>, log: seq<Sending>) {
    |ps| == |log| && forall i :: 0 <= i < |ps| ==> Carries(c, ps[i], log[i])
  }

  lemma CarryAppend(c: Config, ps: seq<Packet>, log: seq<Sending>, more: seq<Packet>, later: seq<Sending>)
    requires AllCarry(c, ps, log) && AllCarry(c, more, later)
    ensures AllCarry(c, ps + more, log + later)
  {
    hide Carries;
    forall i | 0 <= i < |ps + more| ensures Carries(c, (ps + more)[i], (log + later)[i]) {
      assert i >= |ps| ==> Carries(c, more[i - |ps|], later[i - |log|]);
    }
  }

  /** What a handler in state `s` logs when it is polled. */
  function Logged(c: Config, s: State, resets: nat): seq<Sending> {
    match Poll(c, s).sent
    case Demand(value, retry) => [Sending(value, retry, s.valIs, resets)]
    case _ => []
  }

  lemma CommandsOfOne(c: Config, s: State, resets: nat, next: byte, number: word)
    ensures var ps := CommandsOf(PacketsFor(c, Poll(c, s).sent, next), number);
            if c.number == number then AllCarry(c, ps, Logged(c, s, resets)) else ps == []
  {
    var sent := Poll(c, s).sent;
    var ps := PacketsFor(c, sent, next);
    OneOrNone(ps, number);
    assert sent.Demand? ==> c.dataType != READ;
    hide Poll;
  }

  lemma OneOrNone(ps: seq<Packet>, number: word)
    requires |ps| <= 1
    ensures CommandsOf(ps, number) == if ps != [] && IsCommand(ps[0], number) then ps else []
  {
    hide IsCommand;
    if ps != [] {
      assert ps[1..] == [];
    }
  }

  /** One poll of all handlers sends for each number what its handler logs. */
  lemma {:induction false} CommandsOfPoll(cs: Configs, ss: States, order: seq<word>, next: byte, number: word, resets: nat)
    requires Ascending(order) && number in cs && number in ss
    requires forall i :: 0 <= i < |order| ==> order[i] in cs && order[i] in ss && cs[order[i]].number == order[i]
    ensures var ps := CommandsOf(PollAll(cs, ss, order, next).packets, number);
            if number in order then AllCarry(cs[number], ps, Logged(cs[number], ss[number], resets)) else ps == []
    decreases |order|
  {
    hide Poll, PacketsFor, CommandsOf, AllCarry, Logged;
    if order == [] {
      OneOrNone([], number);
    } else {
      var n := |order| - 1;
      var k, before := order[n], PollAll(cs, ss, order[..n], next);
      CommandsOfPoll(cs, ss, order[..n], next, number, resets);
      CommandsOfOne(cs[k], ss[k], resets, before.next, number);
      CommandsAppend(before.packets, PacketsFor(cs[k], Poll(cs[k], ss[k]).sent, before.next), number);
      OneMoreKey(order, n);
      assert order[..n + 1] == order;
      var a, b := CommandsOf(before.packets, number), CommandsOf(PacketsFor(cs[k], Poll(cs[k], ss[k]).sent, before.next), number);
      assert [] + b == b && (b == [] ==> a + b == a);
    }
  }

  lemma PolledLog(c: Config, h: History)
    ensures Next(c, h, Polled).log == h.log + Logged(c, h.state, h.resets)
  {
    hide Poll;
    assert h.log + [] == h.log;
  }

  /** Events other than polls log nothing. */
  lemma OtherLog(c: Config, h: History, e: Event)
    requires !e.Polled?
    ensures Next(c, h, e).log == h.log
  {
    hide Report;
  }

  /** The packets sent for a number carry, entry by entry, what its handler adds to its log. */
  lemma {:induction false} PacketsFollowLog(cs: Configs, ss: States, es: seq<BridgeEvent>, order: seq<word>, next: byte,
                                            number: word, h: History, sent: seq<Packet>)
    requires cs.Keys == ss.Keys && number in ss && h.state == ss[number] && number in order && Ascending(order)
    requires forall i :: 0 <= i < |order| ==> order[i] in cs && cs[order[i]].number == order[i]
    requires AllCarry(cs[number], sent, h.log)
    ensures AllCarry(cs[number], sent + CommandsOf(Emitted(cs, ss, es, order, next), number),
                     Run(cs[number], h, Projection(es, number)).log)
    decreases |es|
  {
    hide Poll, Report, Want, PollAll, Logged, AllCarry, CommandsOf, Next, Ascending;
    var c := cs[number];
    if es == [] {
      OneOrNone([], number);
      assert sent + [] == sent;
    } else {
      var e, ss', rest := es[0], BridgeStep(cs, ss, es[0]), es[1..];
      var r := if e.AllPolled? then PollAll(cs, ss, order, next) else Round([], next);
      var now := CommandsOf(r.packets, number);
      var later := CommandsOf(Emitted(cs, ss', rest, order, r.next), number);
      CommandsAppend(r.packets, Emitted(cs, ss', rest, order, r.next), number);
      assert (sent + now) + later == sent + (now + later);
      var seen := Seen(e, number);
      var h' := if seen.Some? then Next(c, h, seen.value) else h;
      assert AllCarry(c, sent + now, h'.log) && h'.state == ss'[number] by {
        OneStepFollows(cs, ss, e, order, next, number, h, sent);
      }
      PacketsFollowLog(cs, ss', rest, order, r.next, number, h', sent + now);
      assert Projection(es, number) == (if seen.Some? then [seen.value] else []) + Projection(rest, number);
      if seen.Some? {
        assert ([seen.value] + Projection(rest, number))[1..] == Projection(rest, number);
      } else {
        assert [] + Projection(rest, number) == Projection(rest, number);
      }
    }
  }

  lemma OneStepFollows(cs: Configs, ss: States, e: BridgeEvent, order: seq<word>, next: byte,
                       number: word, h: History, sent: seq<Packet>)
    requires cs.Keys == ss.Keys && number in ss && h.state == ss[number] && number in order && Ascending(order)
    requires forall i :: 0 <= i < |order| ==> order[i] in cs && cs[order[i]].number == order[i]
    requires AllCarry(cs[number], sent, h.log)
    ensures var c, seen := cs[number], Seen(e, number);
            var h' := if seen.Some? then Next(c, h, seen.value) else h;
            var packets := if e.AllPolled? then PollAll(cs, ss, order, next).packets else [];
            && AllCarry(c, sent + CommandsOf(packets, number), h'.log)
            && h'.state == BridgeStep(cs, ss, e)[number]
  {
    var c := cs[number];
    OneOrNone([], number);
    assert sent + [] == sent;
    if e.AllPolled? {
      CommandsOfPoll(cs, ss, order, next, number, h.resets);
      PolledLog(c, h);
      hide Poll, PollAll, Logged, CommandsOf;
      CarryAppend(c, sent, h.log, CommandsOf(PollAll(cs, ss, order, next).packets, number), Logged(c, h.state, h.resets));
    } else {
      hide Poll, PollAll, CommandsOf, Report, AllCarry;
      if Seen(e, number).Some? {
        OtherLog(c, h, Seen(e, number).value);
      }
    }
  }

  lemma NothingCarried(c: Config)
    ensures AllCarry(c, [], START_HISTORY.log)
  {
  }

  /**
   Over any run of the bridge from the start, the command packets sent for a message number carry, in order, the log
   of that handler's own run. So burst structure and provenance hold of the packets on the line.
   */
  lemma LineCarriesLog(cs: Configs, ss: States, es: seq<BridgeEvent>, order: seq<word>, next: byte, number: word)
    requires cs.Keys == ss.Keys && number in ss && ss[number] == INITIAL && number in order && Ascending(order)
    requires forall i :: 0 <= i < |order| ==> order[i] in cs && cs[order[i]].number == order[i]
    ensures var h := Run(cs[number], START_HISTORY, Projection(es, number));
            && AllCarry(cs[number], CommandsOf(Emitted(cs, ss, es, order, next), number), h.log)
            && Bursts(h.log) && forall i :: 0 <= i < |h.log| ==> Explained(cs[number], h, h.log[i])
  {
    hide Run, Bursts, Projection, Emitted, Explained, AllCarry;
    forall i | 0 <= i < |Run(cs[number], START_HISTORY, Projection(es, number)).log|
      ensures var h := Run(cs[number], START_HISTORY, Projection(es, number));
              Explained(cs[number], h, h.log[i])
    {
      Provenance(cs[number], Projection(es, number), i);
    }
    NothingCarried(cs[number]);
    BurstStructure(cs[number], Projection(es, number));
    PacketsFollowLog(cs, ss, es, order, next, number, START_HISTORY, []);
    var ps := CommandsOf(Emitted(cs, ss, es, order, next), number);
    assert [] + ps == ps;
  }

  // ---------------------------------------------------------------- the class

  /** Insertion into an ascending list. */
  function Insert(order: seq<word>, k: word): seq<word> {
    if order == [] || k < order[0] then [k] + order else [order[0]] + Insert(order[1..], k)
  }

  predicate Ascending(order: seq<word>) {
    forall i, j :: 0 <= i < j < |order| ==> order[i] < order[j]
  }

  lemma {:induction false} SortedInsert(order: seq<word>, k: word)
    requires Ascending(order) && k !in order
    ensures Ascending(Insert(order, k))
    ensures forall x :: x in Insert(order, k) <==> x == k || x in order
    decreases |order|
  {
    if order != [] && k > order[0] {
      var rest := Insert(order[1..], k);
      SortedInsert(order[1..], k);
      assert order == [order[0]] + order[1..];
      forall j | 0 <= j < |rest| ensures order[0] < rest[j] {
        assert rest[j] in rest;
      }
    }
  }

  /** Which handler class `createHandler` picks for an entity. */
  function KindOf(entityType: string, deviceClass: string): Option<Kind> {
    if (entityType == "sensor" || entityType == "number") && deviceClass != "enum" then Some(Plain)
    else if entityType == "switch" || entityType == "binary_sensor" then Some(Binary)
    else if entityType == "select" || deviceClass == "enum" then Some(Enumeration)
    else None
  }

  /** A handler has a command topic by its type, or because its configuration brings one. */
  predicate TakesCommands(entityType: string, configured: bool) {
    entityType == "switch" || entityType == "select" || entityType == "number" || configured
  }

  datatype Publication = Publication(topic: string, payload: string, retained: bool)

  type ByNumber = map<word, NasaMqttHandler>
  type ByTopic = map<string, NasaMqttHandler>

  ghost predicate IsRegistered(handlers: ByNumber, handler: NasaMqttHandler) {
    handler.config.number in handlers && handlers[handler.config.number] == handler
  }

  ghost predicate AllRegistered(handlers: ByNumber, topics: ByTopic) {
    forall t :: t in topics ==> IsRegistered(handlers, topics[t])
  }

  /** `order` lists the keys in ascending order, as `std::map` iterates. */
  ghost predicate Orders(order: seq<word>, keys: set<word>) {
    Ascending(order) && forall k :: k in order <==> k in keys
  }

  lemma InsertOrders(order: seq<word>, keys: set<word>, k: word)
    requires Orders(order, keys) && k !in keys
    ensures Orders(Insert(order, k), keys + {k})
  {
    hide Ascending, Insert;
    SortedInsert(order, k);
  }

  lemma RegisterHandler(handlers: ByNumber, topics: ByTopic, handler: NasaMqttHandler)
    requires AllRegistered(handlers, topics) && handler.config.number !in handlers
    ensures AllRegistered(handlers[handler.config.number := handler], topics)
  {
    forall t | t in topics ensures IsRegistered(handlers[handler.config.number := handler], topics[t]) {
      assert IsRegistered(handlers, topics[t]);
    }
  }

  lemma RegisterTopic(handlers: ByNumber, topics: ByTopic, topic: string, handler: NasaMqttHandler)
    requires AllRegistered(handlers, topics) && IsRegistered(handlers, handler)
    ensures AllRegistered(handlers, topics[topic := handler])
  {
    hide IsRegistered;
  }

  /** The states when the handlers in `done` have been polled. */
  function PolledStates(cs: Configs, ss: States, done: seq<word>): States
    requires cs.Keys == ss.Keys
  {
    map k | k in ss :: if k in done then Poll(cs[k], ss[k]).state else ss[k]
  }

  lemma PolledMore(cs: Configs, ss: States, order: seq<word>, i: nat)
    requires cs.Keys == ss.Keys && i < |order| && order[i] in ss && Ascending(order)
    ensures PolledStates(cs, ss, order[..i])[order[i]] == ss[order[i]]
    ensures PolledStates(cs, ss, order[..i + 1]) == PolledStates(cs, ss, order[..i])[order[i] := Poll(cs[order[i]], ss[order[i]]).state]
  {
    OneMoreKey(order, i);
    hide Poll, Ascending;
  }

  lemma OrderedKeys(order: seq<word>, cs: Configs, ss: States)
    requires Orders(order, cs.Keys) && cs.Keys == ss.Keys
    ensures Ascending(order) && Listed(cs, ss, order) && forall k :: k in ss ==> k in order
  {
  }

  lemma AllPolledIsStep(cs: Configs, ss: States, order: seq<word>)
    requires cs.Keys == ss.Keys && forall k :: k in ss ==> k in order
    ensures PolledStates(cs, ss, order) == BridgeStep(cs, ss, AllPolled)
  {
    hide Poll;
  }

  class NasaHassBridge {
    var handlers: ByNumber
    var order: seq<word>
    var topics: ByTopic
    const counter: PacketCounter

    ghost predicate Valid()
      reads this
    {
      && (forall k :: k in handlers ==> handlers[k].config.number == k)
      && Orders(order, handlers.Keys)
      && AllRegistered(handlers, topics)
    }

    ghost function Configs(): Configs
      reads this
    {
      map k | k in handlers :: handlers[k].config
    }

    ghost function View(): States
      reads this, handlers.Values
    {
      map k | k in handlers :: handlers[k].View()
    }

    constructor ()
      ensures Valid() && handlers == map[] && topics == map[] && fresh(counter) && counter.next == 0
    {
      handlers, order, topics := map[], [], map[];
      counter := new PacketCounter();
    }

    /** The bridge takes the step of event `e`. */
    twostate predicate Steps(e: BridgeEvent)
      reads handlers.Values, this
    {
      handlers == old(handlers) && View() == BridgeStep(Configs(), old(View()), e)
    }

    /** It does so if each handler takes the step that `e` means for it. */
    twostate lemma StepsIfAllStep(e: BridgeEvent)
      requires handlers == old(handlers)
      requires forall k :: k in handlers ==> handlers[k].View() == After(handlers[k].config, old(handlers[k].View()), Seen(e, k))
      ensures Steps(e)
    {
      hide After, Seen;
    }

    /** `addMsg`, with the topic names already built; a type without handler and a number already taken are refused. */
    method AddMsg(config: Config, entityType: string, deviceClass: string, options: seq<Entry>,
                  topicState: string, topicSet: string, configured: bool) returns (added: bool)
      requires Valid()
      modifies this
      ensures Valid()
      ensures added <==> KindOf(entityType, deviceClass).Some? && config.number !in old(handlers)
      ensures !added ==> handlers == old(handlers) && topics == old(topics)
      ensures added ==> config.number in handlers
      ensures added ==>
        var h := handlers[config.number];
        && fresh(h) && h.config == config && Some(h.kind) == KindOf(entityType, deviceClass) && h.topic == topicState
        && h.View() == INITIAL
        && h.iStr == (if h.kind.Enumeration? then LabelOf(options) else map[])
        && h.strI == (if h.kind.Enumeration? then RawOf(options) else map[])
        && handlers == old(handlers)[config.number := h]
        && topics == if TakesCommands(entityType, configured)
                     then old(topics)[topicState := h][topicSet := h]
                     else old(topics)[topicState := h]
    {
      hide LabelOf, RawOf, Insert, Orders, AllRegistered, KindOf;
      var kind := KindOf(entityType, deviceClass);
      if kind.None? || config.number in handlers {
        return false;
      }
      var handler := new NasaMqttHandler(config, kind.value, topicState);
      handler.Init(options);
      InsertOrders(order, handlers.Keys, config.number);
      RegisterHandler(handlers, topics, handler);
      ghost var keys := handlers.Keys;
      order := Insert(order, config.number);
      handlers := handlers[config.number := handler];
      assert handlers.Keys == keys + {config.number};
      RegisterTopic(handlers, topics, topicState, handler);
      topics := topics[topicState := handler];
      if TakesCommands(entityType, configured) {
        RegisterTopic(handlers, topics, topicSet, handler);
        topics := topics[topicSet := handler];
      }
      return true;
    }

    /** `publishToHass` */
    method PublishToHass(msg: MessageSet) returns (p: Option<Publication>)
      requires Valid() && Typed(msg)
      modifies handlers.Values
      ensures Steps(MessageReported(msg))
      ensures p.Some? <==> msg.number in handlers
      ensures p.Some? ==>
        var h := handlers[msg.number];
        && p.value.topic == h.topic && p.value.payload == MqttPayload(h.kind, h.iStr, h.valIs)
        && (p.value.retained <==> h.config.dataType in {WRITE, REQUEST})
    {
      hide Report, AllRegistered, Orders;
      if msg.number !in handlers {
        StepsIfAllStep(MessageReported(msg));
        return None;
      }
      var handler := handlers[msg.number];
      handler.UpdateValue(msg);
      assert forall k :: k in handlers && k != msg.number ==> handlers[k] != handler;
      StepsIfAllStep(MessageReported(msg));
      var dataType := handler.config.dataType;
      return Some(Publication(handler.topic, handler.GetMqttPayload(), dataType == WRITE || dataType == REQUEST));
    }

    /** The body of the loop in `getNasaPackets`. */
    method PollHandler(number: word, pkts: seq<Packet>) returns (pkts': seq<Packet>)
      requires Valid() && number in handlers
      modifies handlers[number], counter
      ensures View() == old(View())[number := Poll(Configs()[number], old(View())[number]).state]
      ensures var sent := Poll(Configs()[number], old(View())[number]).sent;
              && pkts' == pkts + PacketsFor(Configs()[number], sent, old(counter.next))
              && counter.next == if sent.Nothing? then old(counter.next) else Byte(old(counter.next) + 1)
    {
      hide Poll, PacketsFor, Orders, AllRegistered;
      assert forall k :: k in handlers && k != number ==> handlers[k] != handlers[number];
      pkts' := handlers[number].GetPacket(pkts, counter);
    }

    lemma HandlersInOrder()
      requires Valid()
      ensures Configs().Keys == View().Keys && Ascending(order) && Listed(Configs(), View(), order)
      ensures forall k :: k in View() ==> k in order
      ensures forall i :: 0 <= i < |order| ==> order[i] in handlers
    {
      OrderedKeys(order, Configs(), View());
    }

    /** `getNasaPackets` */
    method GetNasaPackets(pkts: seq<Packet>) returns (pkts': seq<Packet>)
      requires Valid()
      modifies handlers.Values, counter
      ensures Steps(AllPolled)
      ensures var r := PollAll(Configs(), old(View()), order, old(counter.next));
              pkts' == pkts + r.packets && counter.next == r.next
    {
      hide Poll, PacketsFor, PollAll, PolledStates, BridgeStep, Listed, Byte, Ascending, Valid, View, Configs;
      pkts' := pkts;
      ghost var cs, ss, next := Configs(), View(), counter.next;
      HandlersInOrder();
      NothingPolled(cs, ss, next);
      assert order[..0] == [];
      var i := 0;
      while i < |order|
        invariant 0 <= i <= |order| && Listed(cs, ss, order[..i])
        invariant View() == PolledStates(cs, ss, order[..i])
        invariant pkts' == pkts + PollAll(cs, ss, order[..i], next).packets
        invariant counter.next == PollAll(cs, ss, order[..i], next).next
      {
        PollOneMore(cs, ss, order, i, next, pkts);
        PolledMore(cs, ss, order, i);
        pkts' := PollHandler(order[i], pkts');
        i := i + 1;
      }
      assert order[..|order|] == order;
      AllPolledIsStep(cs, ss, order);
    }

    /** One message of `loop`: the value its payload asks for, and the retry counter starts over, unless `std::stoi` throws. */
    method HandleMqtt(topic: string, payload: string) returns (thrown: bool)
      requires Valid()
      modifies handlers.Values
      ensures handlers == old(handlers)
      ensures topic !in topics ==> !thrown && View() == old(View())
      ensures topic in topics ==>
        var h := topics[topic];
        var wish := Wanted(h.config, h.kind, old(h.strI), payload);
        && (thrown <==> wish.Throws?)
        && if thrown then View() == old(View())
           else Steps(HandlerAsked(h.config.number, if wish.Value? then Some(wish.v) else None))
    {
      hide Wanted, Orders;
      if topic !in topics {
        return false;
      }
      var handler := topics[topic];
      assert IsRegistered(handlers, handler);
      hide AllRegistered;
      assert forall k :: k in handlers && k != handler.config.number ==> handlers[k] != handler;
      ghost var wish := Wanted(handler.config, handler.kind, handler.strI, payload);
      thrown := handler.UpdateValueNew(payload);
      if thrown {
        return true;
      }
      handler.ResetRetryCounter();
      StepsIfAllStep(HandlerAsked(handler.config.number, if wish.Value? then Some(wish.v) else None));
    }
  }
}
