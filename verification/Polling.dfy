/**
 What a poll sends, field by field and over all runs: read-outs as long as no value is known, commands afterwards;
 and what a handler makes of reports and payloads, in plain numbers.
 */
module Polling {
  import opened Basics
  import opened Bytes
  import opened Packets
  import opened WireFormat
  import opened Numerals
  import opened Handlers
  import opened HandlerRuns
  import opened Bridge

  // ---------------------------------------------------------------- the packets

  /** From the configured address to B0.FF.20, one message with the handler's number and the value `v`. */
  predicate Addressed(p: Packet, c: Config, v: int) {
    && p.sa == c.sa && p.da.aClass == 0xB0 && p.da.channel == 0xFF && p.da.address == 0x20
    && p.command.packetInformation && p.command.protocolVersion == 2 && p.command.packetType == 1
    && p.body.Messages? && |p.body.sets| == 1
    && p.body.sets[0].number == c.number && p.body.sets[0].payload == Number(v)
  }

  /** A read-out: data type Read, value 1, no retries. */
  predicate IsReadOut(p: Packet, c: Config) {
    Addressed(p, c, 1) && p.command.dataType == 1 && p.command.retryCount == 0
  }

  predicate IsDemand(p: Packet, c: Config, v: int, retry: int) {
    Addressed(p, c, v) && p.command.dataType == c.dataType && p.command.retryCount == retry
  }

  /** No value is known, and the handler is to ask for one. */
  predicate Asking(c: Config, s: State) {
    s.valIs == 0x7FFF_FFFF && c.initialReadOut
  }

  /** Another value than the known one is wanted, by a handler that is not for reading. */
  predicate Wanting(c: Config, s: State) {
    s.valNew != 0x7FFF_FFFF && s.valNew != s.valIs && c.dataType != 1
  }

  /** Write commands are disabled. */
  predicate Disabled(c: Config) {
    c.dataType == 2 && c.disableWriteSend
  }

  /** All that one poll can do: the packets it sends under the packet number `next`, and the state it leaves. */
  lemma PollSends(c: Config, s: State, next: byte)
    ensures var o := Poll(c, s);
            var ps := PacketsFor(c, o.sent, next);
            && (forall i :: 0 <= i < |ps| ==> ps[i].command.packetNumber == next)
            && (Asking(c, s) ==> |ps| == 1 && IsReadOut(ps[0], c) && o.state == s)
            && (!Asking(c, s) && !Wanting(c, s) ==> ps == [] && o.state == s)
            && (!Asking(c, s) && Wanting(c, s) && (Disabled(c) || s.retryCtr > 10) ==>
                  ps == [] && o.state == State(s.valIs, s.valIs, 0))
            && (!Asking(c, s) && Wanting(c, s) && !Disabled(c) && s.retryCtr <= 10 ==>
                  |ps| == 1 && IsDemand(ps[0], c, s.valNew, s.retryCtr) && o.state == State(s.valIs, s.valNew, s.retryCtr + 1))
  {
  }

  // ---------------------------------------------------------------- reports

  /** A number cut to the 16-bit two's complement range. */
  function Short(v: int): int {
    if v % 65536 < 32768 then v % 65536 else v % 65536 - 65536
  }

  /** A number cut to the 32-bit two's complement range. */
  function Long(v: int): int {
    if v % 0x1_0000_0000 < 0x8000_0000 then v % 0x1_0000_0000 else v % 0x1_0000_0000 - 0x1_0000_0000
  }

  /** What a message with type bits of `n` means when it carries `v`: 16-bit messages are signed. */
  function Told(n: word, v: int): int {
    if TypeBits(n, 1, 0) then Short(v) else Long(v)
  }

  /** A report of another number changes nothing; one of the handler's number sets what is known, and clears the wish it fulfils. */
  lemma ReportTells(c: Config, s: State, n: word, v: int)
    requires !TypeBits(n, 1, 1)
    ensures var s' := Report(c, s, MessageSet(n, Number(v)));
            && (n != c.number ==> s' == s)
            && (n == c.number ==> s'.valIs == Told(n, v) && s'.retryCtr == s.retryCtr)
            && (n == c.number ==> s'.valNew == if s.valNew == Told(n, v) then 0x7FFF_FFFF else s.valNew)
  {
    assert TypeBits(n, 0, 0) || TypeBits(n, 1, 0) || TypeBits(n, 0, 1) || TypeBits(n, 1, 1);
    hide MessageTypeOf, TypeBits;
    TypeOfBits(n);
    TypesDiffer(n);
  }

  lemma TypesDiffer(n: word)
    ensures TypeBits(n, 0, 0) || TypeBits(n, 0, 1) ==> !TypeBits(n, 1, 0)
  {
  }

  /** A structure leaves what is known, but counts as a report of it. */
  lemma StructureTells(c: Config, s: State, bytes: seq<byte>)
    requires TypeBits(c.number, 1, 1)
    ensures Report(c, s, MessageSet(c.number, Buffer(bytes)))
         == State(s.valIs, if s.valNew == s.valIs then 0x7FFF_FFFF else s.valNew, s.retryCtr)
  {
    TypeOfBits(c.number);
    hide MessageTypeOf, TypeBits;
  }

  // ---------------------------------------------------------------- runs

  /** The last report of a number, from the start of a run. */
  function LastReport(es: seq<Event>, n: word): Option<MessageSet> {
    if es == [] then None
    else
      var e := es[|es| - 1];
      if e.Reported? && e.msg.number == n then Some(e.msg) else LastReport(es[..|es| - 1], n)
  }

  /** All messages in a run are as the decoder makes them. */
  predicate AllDecoded(es: seq<Event>) {
    forall i :: 0 <= i < |es| && es[i].Reported? ==> Typed(es[i].msg)
  }

  /** The value that the last report of a number told; 0x7FFFFFFF without any, and for structures. */
  function LastTold(es: seq<Event>, n: word): int {
    match LastReport(es, n)
    case Some(MessageSet(_, Number(v))) => if TypeBits(n, 1, 1) then 0x7FFF_FFFF else Told(n, v)
    case _ => 0x7FFF_FFFF
  }

  /** What is known after a run is what was told last. */
  lemma {:induction false} KnownIsLastTold(c: Config, es: seq<Event>)
    requires AllDecoded(es)
    ensures Run(c, START_HISTORY, es).state.valIs == LastTold(es, c.number)
  {
    hide TypeBits, Report, Poll, Want, Told;
    if es != [] {
      var before, e := es[..|es| - 1], es[|es| - 1];
      assert AllDecoded(before) by {
        assert forall i :: 0 <= i < |before| ==> before[i] == es[i];
      }
      KnownIsLastTold(c, before);
      RunAppend(c, START_HISTORY, before, [e]);
      assert es == before + [e];
      OneEvent(c, Run(c, START_HISTORY, before), e);
      KnownAfter(c, Run(c, START_HISTORY, before), e);
    }
  }

  lemma OneEvent(c: Config, h: History, e: Event)
    ensures Run(c, h, [e]) == Next(c, h, e)
  {
    hide Next;
    assert [e][1..] == [];
  }

  lemma KnownAfter(c: Config, h: History, e: Event)
    requires e.Reported? ==> Typed(e.msg)
    ensures Next(c, h, e).state.valIs ==
      if e.Reported? && e.msg.number == c.number && e.msg.payload.Number? then Told(c.number, e.msg.payload.value) else h.state.valIs
    ensures e.Reported? ==> (e.msg.payload.Number? <==> !TypeBits(e.msg.number, 1, 1))
  {
    if e.Reported? {
      assert TypeBits(e.msg.number, 0, 0) || TypeBits(e.msg.number, 1, 0) || TypeBits(e.msg.number, 0, 1) || TypeBits(e.msg.number, 1, 1);
      TypeOfBits(e.msg.number);
      hide MessageTypeOf, TypeBits;
      if e.msg.payload.Number? {
        ReportTells(c, h.state, e.msg.number, e.msg.payload.value);
      } else if e.msg.number == c.number {
        StructureTells(c, h.state, e.msg.payload.bytes);
      }
    }
  }

  /**
   Over all runs: with initial read-out, a poll sends exactly one read-out if no report of the handler's number has
   told a value yet, and none afterwards; without, it never sends one.
   */
  lemma ReadOuts(c: Config, es: seq<Event>, next: byte)
    requires AllDecoded(es)
    ensures var ps := PacketsFor(c, Poll(c, Run(c, START_HISTORY, es).state).sent, next);
            if c.initialReadOut && LastTold(es, c.number) == 0x7FFF_FFFF then |ps| == 1 && IsReadOut(ps[0], c)
            else forall i :: 0 <= i < |ps| ==> ps[i].command.dataType != 1
  {
    hide Poll, PacketsFor, Run, LastTold, IsReadOut, IsDemand;
    KnownIsLastTold(c, es);
    PollSends(c, Run(c, START_HISTORY, es).state, next);
  }

  /** The packets for one message number, in order. */
  function PacketsOf(ps: seq<Packet>, number: word): seq<Packet> {
    if ps == [] then []
    else (if Concerns(ps[0], number) then [ps[0]] else []) + PacketsOf(ps[1..], number)
  }

  predicate Concerns(p: Packet, number: word) {
    p.body.Messages? && |p.body.sets| == 1 && p.body.sets[0].number == number
  }

  lemma {:induction false} PacketsOfAppend(a: seq<Packet>, b: seq<Packet>, number: word)
    ensures PacketsOf(a + b, number) == PacketsOf(a, number) + PacketsOf(b, number)
  {
    hide Concerns;
    if a == [] {
      assert a + b == b;
    } else {
      PacketsOfAppend(a[1..], b, number);
      assert (a + b)[1..] == a[1..] + b;
      var first := if Concerns(a[0], number) then [a[0]] else [];
      assert first + (PacketsOf(a[1..], number) + PacketsOf(b, number))
          == (first + PacketsOf(a[1..], number)) + PacketsOf(b, number);
    }
  }

  lemma PacketsOfOne(c: Config, sent: Sent, next: byte, number: word)
    ensures PacketsOf(PacketsFor(c, sent, next), number) == if c.number == number then PacketsFor(c, sent, next) else []
  {
    var ps := PacketsFor(c, sent, next);
    if ps != [] {
      assert Concerns(ps[0], c.number) && ps[1..] == [];
      assert [ps[0]] + [] == ps;
    }
  }

  /** One poll of all handlers sends for each number what its handler sends. */
  lemma {:induction false} PacketsOfPoll(cs: Configs, ss: States, order: seq<word>, next: byte, number: word) returns (n: byte)
    requires Ascending(order) && Listed(cs, ss, order) && number in cs && number in ss
    requires forall i :: 0 <= i < |order| ==> cs[order[i]].number == order[i]
    ensures PacketsOf(PollAll(cs, ss, order, next).packets, number)
         == if number in order then PacketsFor(cs[number], Poll(cs[number], ss[number]).sent, n) else []
    decreases |order|
  {
    hide Poll, PacketsFor, PacketsOf;
    n := next;
    if order == [] {
      NoPackets(number);
    } else {
      var m := |order| - 1;
      var k, before := order[m], PollAll(cs, ss, order[..m], next);
      n := PacketsOfPoll(cs, ss, order[..m], next, number);
      var ps := PacketsFor(cs[k], Poll(cs[k], ss[k]).sent, before.next);
      PacketsOfOne(cs[k], Poll(cs[k], ss[k]).sent, before.next, number);
      PacketsOfAppend(before.packets, ps, number);
      OneMoreKey(order, m);
      assert order[..m + 1] == order;
      assert [] + ps == ps && PacketsOf(before.packets, number) + [] == PacketsOf(before.packets, number);
      if k == number {
        n := before.next;
      }
    }
  }

  lemma NoPackets(number: word)
    ensures PacketsOf([], number) == []
  {
  }

  /**
   The same on the line: after any run of the bridge from the start, one poll sends for a message number exactly one
   read-out if its handler asks for one and nothing has told a value yet, and no read-out otherwise.
   */
  lemma ReadOutsOnLine(cs: Configs, ss: States, es: seq<BridgeEvent>, order: seq<word>, next: byte, number: word)
    requires cs.Keys == ss.Keys && number in ss && ss[number] == INITIAL && number in order && Ascending(order)
    requires forall i :: 0 <= i < |order| ==> order[i] in cs && cs[order[i]].number == order[i]
    requires AllDecoded(Projection(es, number))
    ensures var c, ps := cs[number], PacketsOf(PollAll(cs, BridgeRun(cs, ss, es), order, next).packets, number);
            if c.initialReadOut && LastTold(Projection(es, number), number) == 0x7FFF_FFFF then |ps| == 1 && IsReadOut(ps[0], c)
            else forall i :: 0 <= i < |ps| ==> ps[i].command.dataType != 1
  {
    hide Poll, PacketsFor, PacketsOf, PollAll, Run, BridgeRun, Projection, LastTold, AllDecoded, IsReadOut, Ascending;
    var run, events := BridgeRun(cs, ss, es), Projection(es, number);
    var i :| 0 <= i < |order| && order[i] == number;
    var n := PacketsOfPoll(cs, run, order, next, number);
    HandlersAreIndependent(cs, ss, es, number, START_HISTORY);
    ReadOuts(cs[number], events, n);
  }

  // ---------------------------------------------------------------- payloads

  /** What a payload asks of each kind of handler; a plain handler listens only if it sends writes (2) or requests (3). */
  lemma WishOfPayload(c: Config, strI: map<string, int>, payload: string)
    ensures Wanted(c, Binary, strI, payload) == Value(if payload == "ON" then 1 else 0)
    ensures Wanted(c, Enumeration, strI, payload) == if payload in strI then Value(strI[payload]) else NoWish
    ensures c.dataType != 2 && c.dataType != 3 ==> Wanted(c, Plain, strI, payload) == NoWish
    ensures c.dataType == 2 || c.dataType == 3 ==>
      Wanted(c, Plain, strI, payload) == match Stoi(payload) case Some(v) => Value(v) case None => Throws
  {
    hide Stoi;
  }

  /** A wish replaces the one before; any payload starts the retries over and leaves what is known. */
  lemma WishIsTaken(s: State, v: int)
    ensures Want(s, Some(v)) == State(s.valIs, v, 0) && Want(s, None) == State(s.valIs, s.valNew, 0)
  {
  }

  /** What is published: OFF for 0 and ON for everything else, the label of a value or nothing, the number or nothing. */
  lemma PublishedText(iStr: map<int, string>, v: int)
    ensures MqttPayload(Binary, iStr, v) == if v == 0 then "OFF" else "ON"
    ensures MqttPayload(Enumeration, iStr, v) == if v in iStr then iStr[v] else ""
    ensures MqttPayload(Plain, iStr, v) == if v == 0x7FFF_FFFF then "" else ToString(v)
  {
  }

  /** Switches, selections and numbers have a command topic, others only if their configuration brings one. */
  lemma CommandTopics(t: string, configured: bool)
    ensures TakesCommands(t, configured) <==> configured || t in {"switch", "select", "number"}
  {
  }

  /** The handler class by entity type and device class. */
  lemma KindOfEntity(t: string, d: string)
    ensures t == "switch" || t == "binary_sensor" ==> KindOf(t, d) == Some(Binary)
    ensures t == "select" ==> KindOf(t, d) == Some(Enumeration)
    ensures (t == "sensor" || t == "number") && d == "enum" ==> KindOf(t, d) == Some(Enumeration)
    ensures (t == "sensor" || t == "number") && d != "enum" ==> KindOf(t, d) == Some(Plain)
    ensures t !in {"switch", "binary_sensor", "select", "sensor", "number"} ==>
      KindOf(t, d) == if d == "enum" then Some(Enumeration) else None
  {
  }
}
