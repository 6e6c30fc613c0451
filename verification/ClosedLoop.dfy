/**
 A handler, the wire, and a unit that echoes what it is told: when a command is confirmed, when it is given up,
 and which label an enumeration publishes afterwards.
 */
module ClosedLoop {
  import opened Basics
  import opened Bytes
  import opened Packets
  import opened Numerals
  import opened Stream
  import opened Transmission
  import opened Handlers
  import opened HandlerRuns

  const NOTIFICATION: byte := 4

  /** What the handler understands when a unit echoes the value `v`. */
  function Heard(t: MessageType, v: int): int
    requires t != Structure
  {
    Meaning(t, NumberOnWire(t, v))
  }

  predicate Representable(t: MessageType, v: int) {
    match t
    case Enum => 0 <= v < 256
    case Variable => -0x8000 <= v < 0x8000
    case LongVariable => -0x8000_0000 <= v < 0x8000_0000
    case Structure => false
  }

  lemma ByteHeard(v: int)
    ensures Int32(v % 256) == v % 256 && (v % 256 == v <==> 0 <= v < 256)
  {
  }

  lemma ShortHeard(v: int)
    ensures Int16(v % 65536) == v <==> -0x8000 <= v < 0x8000
    ensures -0x8000 <= Int16(v % 65536) < 0x8000
  {
  }

  lemma Signed32Twice(n: int)
    requires 0 <= n < TWO_32
    ensures Signed32(n) % TWO_32 == n && -0x8000_0000 <= Signed32(n) < 0x8000_0000
  {
  }

  lemma LongHeard(v: int)
    ensures Int32(Signed32(v % TWO_32)) == v <==> -0x8000_0000 <= v < 0x8000_0000
  {
    Signed32Twice(v % TWO_32);
    assert -0x8000_0000 <= v < 0x8000_0000 ==> Signed32(v % TWO_32) == v;
  }

  lemma HeardIffRepresentable(t: MessageType, v: int)
    requires t != Structure
    ensures Heard(t, v) == v <==> Representable(t, v)
    ensures t != LongVariable ==> Heard(t, v) != INT_MAX
  {
    hide Int16, Int32, Signed32;
    ByteHeard(v);
    ShortHeard(v);
    LongHeard(v);
  }

  /** Retry counts 0 to 3 fit their field; 4 to 7 add one to the protocol version; 8 to 10 clear the packet-information bit and the version. */
  lemma RetryCountOnWire(c: Config, dataType: byte, v: int, retry: byte, next: byte)
    requires retry <= 10
    ensures var sent := BroadcastPacket(c, dataType, v, retry, next).command;
            var seen := CommandOnWire(sent);
            && seen.retryCount == retry % 4
            && seen.protocolVersion == (if retry < 4 then 2 else if retry < 8 then 3 else 0)
            && (seen.packetInformation <==> retry < 8)
  {
  }

  /** The unit's answer to a command packet: the message it received, sent back as a notification. */
  function Reply(received: Packet, unit: Address, number: byte): Packet {
    Packet(unit, received.sa, Command(true, 2, 0, NORMAL, NOTIFICATION, number), received.body)
  }

  /** The packets the bridge's stream decoder returns when the frame of `p` reaches the unit and its reply comes back. */
  function Echo(p: Packet, unit: Address, number: byte): seq<Packet>
    requires Scalars(p)
  {
    match Decode(Encode(p))
    case Ok(q) => if Scalars(Reply(q, unit, number)) then Parse(Encode(Reply(q, unit, number))).packets else []
    case _ => []
  }

  lemma EchoCarriesNumber(c: Config, v: int, retry: byte, next: byte, unit: Address, number: byte)
    requires MessageTypeOf(c.number) != Structure
    ensures Scalars(BroadcastPacket(c, c.dataType, v, retry, next))
    ensures var w := NumberOnWire(MessageTypeOf(c.number), v);
            var echo := Echo(BroadcastPacket(c, c.dataType, v, retry, next), unit, number);
            |echo| == 1 && echo[0].body == Messages([MessageSet(c.number, Number(w))])
  {
    hide Encode, Decode, CommandOnWire, NumberOnWire, MessageTypeOf;
    var t := MessageTypeOf(c.number);
    var p := BroadcastPacket(c, c.dataType, v, retry, next);
    var ms := p.body.sets;
    SingleMessageFrame(p);
    EncodeThenDecode(p);
    assert ms[..1] == ms && ms[1..] == [];
    var w := NumberOnWire(t, v);
    assert MessagesOnWire(ms) == [MessageSet(c.number, Number(w))];
    var r := Reply(PacketOnWire(p), unit, number);
    assert r.body == Messages([MessageSet(c.number, Number(w))]);
    NumberOnWireFits(t, v);
    SingleMessageFrame(r);
    assert Sendable(r);
    SinglePacket(r);
    assert Keep([r]) == [r] + Keep([]);
  }

  /** One round: the bridge polls; if a command goes out, the unit's echo comes back and is handled. */
  function Exchange(c: Config, h: History, unit: Address, number: byte): History {
    var sent := Poll(c, h.state).sent;
    var h1 := Next(c, h, Polled);
    if sent.Demand? && MessageTypeOf(c.number) != Structure then
      EchoCarriesNumber(c, sent.value, Byte(sent.retry), number, unit, number);
      var echo := Echo(BroadcastPacket(c, c.dataType, sent.value, Byte(sent.retry), number), unit, number);
      Next(c, h1, Reported(echo[0].body.sets[0]))
    else h1
  }

  function Exchanges(c: Config, h: History, unit: Address, numbers: seq<byte>): History
    decreases |numbers|
  {
    if numbers == [] then h else Exchanges(c, Exchange(c, h, unit, numbers[0]), unit, numbers[1..])
  }

  lemma ExchangeOfCommand(c: Config, h: History, unit: Address, number: byte)
    requires MessageTypeOf(c.number) != Structure && Poll(c, h.state).sent.Demand?
    ensures var s := h.state;
            var w := Heard(MessageTypeOf(c.number), s.valNew);
            var h' := Exchange(c, h, unit, number);
            && h'.log == h.log + [Sending(s.valNew, s.retryCtr, s.valIs, h.resets)] && h'.resets == h.resets
            && h'.state == State(w, if w == s.valNew then INT_MAX else s.valNew, s.retryCtr + 1)
  {
    hide Echo, NumberOnWire, MessageTypeOf, Meaning;
    EchoCarriesNumber(c, h.state.valNew, Byte(h.state.retryCtr), number, unit, number);
  }

  lemma {:induction false} IdleExchanges(c: Config, h: History, unit: Address, numbers: seq<byte>)
    requires MaySend(c, h.state) && !Pending(c, h.state)
    ensures Exchanges(c, h, unit, numbers) == h
    decreases |numbers|
  {
    hide Echo;
    if numbers != [] {
      assert Exchange(c, h, unit, numbers[0]) == h;
      IdleExchanges(c, h, unit, numbers[1..]);
    }
  }

  /**
   A representable command is settled by its first echo: the value is known, nothing is wanted, and no further
   packet is sent.
   */
  lemma RepresentableCommandSettles(c: Config, h: History, v: int, unit: Address, numbers: seq<byte>)
    requires MaySend(c, h.state) && h.state.valIs != INT_MAX && v != INT_MAX && v != h.state.valIs
    requires Representable(MessageTypeOf(c.number), v) && numbers != []
    ensures var after := Exchanges(c, Next(c, h, Asked(Some(v))), unit, numbers);
            && after.state == State(v, INT_MAX, 1)
            && after.log == h.log + [Sending(v, 0, h.state.valIs, h.resets + 1)]
  {
    hide Echo, Heard, MessageTypeOf;
    var h1 := Next(c, h, Asked(Some(v)));
    ExchangeOfCommand(c, h1, unit, numbers[0]);
    HeardIffRepresentable(MessageTypeOf(c.number), v);
    IdleExchanges(c, Exchange(c, h1, unit, numbers[0]), unit, numbers[1..]);
  }

  /** The next entries of the log carry `v` with retry counts from `r` on. */
  predicate Attempts(log: seq<Sending>, start: nat, v: int, r: nat, k: nat) {
    |log| == start + k && forall i :: start <= i < |log| ==> log[i].value == v && log[i].retry == r + (i - start)
  }

  /** The state after `n` rounds in which `v` is sent and `w` heard, `r` retries having been made before. */
  function Attempted(valIs: int, v: int, w: int, r: nat, n: nat): State
    requires r <= 11
  {
    if n == 0 then State(valIs, v, r)
    else if r + n <= 11 then State(w, v, r + n)
    else Dropped(if r == 11 then valIs else w, false)
  }

  lemma {:induction false} UnrepresentableRounds(c: Config, h: History, v: int, unit: Address, numbers: seq<byte>)
    requires MaySend(c, h.state) && Pending(c, h.state) && h.state.valNew == v && h.state.valIs != INT_MAX
    requires h.state.retryCtr <= 11
    requires MessageTypeOf(c.number) in {Enum, Variable} && !Representable(MessageTypeOf(c.number), v)
    ensures var after, n, r := Exchanges(c, h, unit, numbers), |numbers|, h.state.retryCtr;
            && h.log <= after.log && Attempts(after.log, |h.log|, v, r, MinInt(n, 11 - r))
            && after.state == Attempted(h.state.valIs, v, Heard(MessageTypeOf(c.number), v), r, n)
    decreases |numbers|
  {
    hide Echo, Heard, MessageTypeOf;
    if numbers != [] {
      var s, h' := h.state, Exchange(c, h, unit, numbers[0]);
      if s.retryCtr <= 10 {
        ExchangeOfCommand(c, h, unit, numbers[0]);
        HeardIffRepresentable(MessageTypeOf(c.number), v);
        UnrepresentableRounds(c, h', v, unit, numbers[1..]);
        assert h'.log[|h.log|] == Sending(v, s.retryCtr, s.valIs, h.resets);
      } else {
        IdleExchanges(c, h', unit, numbers[1..]);
      }
    }
  }

  /**
   A command its message type cannot carry is never confirmed: it is sent in the first eleven rounds and then given
   up for the value that the unit took for it.
   */
  lemma UnrepresentableCommandIsDropped(c: Config, h: History, v: int, unit: Address, numbers: seq<byte>)
    requires MaySend(c, h.state) && h.state.valIs != INT_MAX && v != INT_MAX && v != h.state.valIs
    requires MessageTypeOf(c.number) in {Enum, Variable} && !Representable(MessageTypeOf(c.number), v)
    ensures var after, n := Exchanges(c, Next(c, h, Asked(Some(v))), unit, numbers), |numbers|;
            var w := Heard(MessageTypeOf(c.number), v);
            && w != v && h.log <= after.log && Attempts(after.log, |h.log|, v, 0, MinInt(n, 11))
            && after.state == if n == 0 then State(h.state.valIs, v, 0) else if n <= 11 then State(w, v, n) else Dropped(w, false)
  {
    hide Exchanges, Heard;
    HeardIffRepresentable(MessageTypeOf(c.number), v);
    UnrepresentableRounds(c, Next(c, h, Asked(Some(v))), v, unit, numbers);
  }

  // ---------------------------------------------------------------- labels

  predicate DistinctTexts(options: seq<Entry>) {
    forall i, j :: 0 <= i < j < |options| ==> options[i].text != options[j].text
  }

  predicate DistinctRaws(options: seq<Entry>) {
    forall i, j :: 0 <= i < j < |options| ==> options[i].raw != options[j].raw
  }

  /** `i` is the last option with its raw value. */
  predicate LastOfRaw(options: seq<Entry>, i: nat)
    requires i < |options|
  {
    forall j :: i < j < |options| ==> options[j].raw != options[i].raw
  }

  lemma {:induction false} OptionMaps(options: seq<Entry>, i: nat)
    requires i < |options| && DistinctTexts(options)
    ensures options[i].text in RawOf(options) && RawOf(options)[options[i].text] == options[i].raw
    ensures options[i].raw in LabelOf(options)
    ensures LabelOf(options)[options[i].raw] == options[i].text <==> LastOfRaw(options, i)
    decreases |options|
  {
    var n := |options| - 1;
    if i < n {
      OptionMaps(options[..n], i);
      assert options[..n][i] == options[i];
      assert LastOfRaw(options, i) <==> LastOfRaw(options[..n], i) && options[n].raw != options[i].raw;
    }
  }

  /** Option `i` is published under its own label when its raw value is reported. */
  predicate ComesBack(options: seq<Entry>, i: nat)
    requires i < |options|
  {
    var byText, byRaw := RawOf(options), LabelOf(options);
    options[i].text in byText && byText[options[i].text] in byRaw && byRaw[byText[options[i].text]] == options[i].text
  }

  /** Every label comes back if and only if no raw value has two labels. */
  lemma LabelsRoundTrip(options: seq<Entry>)
    requires DistinctTexts(options)
    ensures DistinctRaws(options) <==> forall i :: 0 <= i < |options| ==> ComesBack(options, i)
  {
    hide RawOf, LabelOf;
    forall i | 0 <= i < |options| ensures ComesBack(options, i) <==> LastOfRaw(options, i) {
      OptionMaps(options, i);
    }
    if forall i :: 0 <= i < |options| ==> ComesBack(options, i) {
      forall i, j | 0 <= i < j < |options| ensures options[i].raw != options[j].raw {
        assert ComesBack(options, i);
        assert LastOfRaw(options, i);
      }
    }
    if DistinctRaws(options) {
      forall i | 0 <= i < |options| ensures ComesBack(options, i) {
        assert LastOfRaw(options, i);
      }
    }
  }

  /** A representable wish is known and nothing pending after the unit has echoed it, also if it was fulfilled before. */
  lemma WishIsKnown(c: Config, h: History, v: int, unit: Address, numbers: seq<byte>)
    requires MaySend(c, h.state) && h.state.valIs != INT_MAX && numbers != []
    requires Representable(MessageTypeOf(c.number), v) && v != INT_MAX
    ensures var after := Exchanges(c, Next(c, h, Asked(Some(v))), unit, numbers).state;
            after.valIs == v && !Pending(c, after)
  {
    hide Echo, Representable, MessageTypeOf;
    if v == h.state.valIs {
      IdleExchanges(c, Next(c, h, Asked(Some(v))), unit, numbers);
    } else {
      RepresentableCommandSettles(c, h, v, unit, numbers);
    }
  }

  /** What the handler publishes after it has taken a payload and exchanged packets with the unit. */
  function PublishedAfter(c: Config, kind: Kind, options: seq<Entry>, h: History, payload: string,
                          unit: Address, numbers: seq<byte>): string
  {
    var wish := Wanted(c, kind, RawOf(options), payload);
    var v := if wish.Value? then Some(wish.v) else None;
    MqttPayload(kind, LabelOf(options), Exchanges(c, Next(c, h, Asked(v)), unit, numbers).state.valIs)
  }

  /** A commanded label that is sent, echoed and reported is the label published afterwards. */
  lemma LabelLoop(c: Config, h: History, options: seq<Entry>, k: nat, unit: Address, numbers: seq<byte>)
    requires DistinctTexts(options) && DistinctRaws(options) && k < |options|
    requires MaySend(c, h.state) && h.state.valIs != INT_MAX && numbers != []
    requires Representable(MessageTypeOf(c.number), options[k].raw) && options[k].raw != INT_MAX
    ensures PublishedAfter(c, Enumeration, options, h, options[k].text, unit, numbers) == options[k].text
  {
    hide Representable, MessageTypeOf, Exchanges, Next;
    OptionMaps(options, k);
    assert LastOfRaw(options, k);
    WishIsKnown(c, h, options[k].raw, unit, numbers);
  }

  /** A commanded number is published again as the same text. */
  lemma NumberLoop(c: Config, h: History, v: int, unit: Address, numbers: seq<byte>)
    requires c.dataType == REQUEST || c.dataType == WRITE
    requires MaySend(c, h.state) && h.state.valIs != INT_MAX && numbers != []
    requires Representable(MessageTypeOf(c.number), v) && v != INT_MAX
    ensures PublishedAfter(c, Plain, [], h, ToString(v), unit, numbers) == ToString(v)
  {
    StoiOfToString(v);
    WishIsKnown(c, h, v, unit, numbers);
    hide MessageTypeOf, Exchanges, Next, Stoi, ToString;
  }

  /** A switch is published as it was commanded. */
  lemma SwitchLoop(c: Config, h: History, on: bool, unit: Address, numbers: seq<byte>)
    requires MessageTypeOf(c.number) != Structure
    requires MaySend(c, h.state) && h.state.valIs != INT_MAX && numbers != []
    ensures var payload := if on then "ON" else "OFF";
            PublishedAfter(c, Binary, [], h, payload, unit, numbers) == payload
  {
    WishIsKnown(c, h, if on then 1 else 0, unit, numbers);
    hide MessageTypeOf, Exchanges, Next;
  }
}
