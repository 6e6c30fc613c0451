/**
 One message handler (src/nasa_msg_handler.cpp, src/nasa_mqtt_handler.hpp): the value the unit last reported,
 the value a user wants, and the retry counter. Its three operations are atomic steps, because the bridge
 calls them under one mutex.
 */
module Handlers {
  import opened Basics
  import opened Bytes
  import opened Packets
  import opened Numerals

  const INT_MAX: int := 0x7FFF_FFFF

  datatype Config = Config(number: word, sa: Address, dataType: byte, disableWriteSend: bool, initialReadOut: bool)

  /** `val_is_`, `val_new_`, `retry_ctr_`; INT_MAX stands for "unknown" and for "nothing wanted". */
  datatype State = State(valIs: int, valNew: int, retryCtr: nat)

  const INITIAL := State(INT_MAX, INT_MAX, 0)

  datatype Sent = Nothing | ReadOut | Demand(value: int, retry: nat)

  datatype Outcome = Outcome(state: State, sent: Sent)

  /** Wanting what is there already: how a command is dropped. */
  function Abandon(s: State): State {
    State(s.valIs, s.valIs, 0)
  }

  predicate Guarded(c: Config) {
    c.dataType == WRITE && c.disableWriteSend
  }

  predicate Pending(c: Config, s: State) {
    s.valNew != INT_MAX && s.valIs != s.valNew && c.dataType != READ
  }

  /** `getPacket` */
  function Poll(c: Config, s: State): Outcome {
    if s.valIs == INT_MAX && c.initialReadOut then Outcome(s, ReadOut)
    else if !Pending(c, s) then Outcome(s, Nothing)
    else if Guarded(c) || s.retryCtr > 10 then Outcome(Abandon(s), Nothing)
    else Outcome(s.(retryCtr := s.retryCtr + 1), Demand(s.valNew, s.retryCtr))
  }

  /** The conversion of a `long` to `int`. */
  function Int32(v: int): int {
    Signed32(v % TWO_32)
  }

  /** The conversion of a `long` to `short`. */
  function Int16(v: int): int {
    if v % 65536 < 0x8000 then v % 65536 else v % 65536 - 65536
  }

  /** What a reported number means for a handler of message type `t`; structures carry no number. */
  function Meaning(t: MessageType, v: int): int
    requires t != Structure
  {
    if t == Variable then Int16(v) else Int32(v)
  }

  /** `updateValue` */
  function Report(c: Config, s: State, msg: MessageSet): State {
    if msg.number != c.number then s
    else
      var t := MessageTypeOf(c.number);
      var heard := if t != Structure && msg.payload.Number? then Meaning(t, msg.payload.value) else s.valIs;
      State(heard, if heard == s.valNew then INT_MAX else s.valNew, s.retryCtr)
  }

  /** `updateValueNew` followed by `resetRetryCounter`, as the bridge calls them; None if the payload names no value. */
  function Want(s: State, v: Option<int>): State {
    State(s.valIs, if v.Some? then v.value else s.valNew, 0)
  }

  // ---------------------------------------------------------------- packets

  const BROADCAST_SELF := Address(0xB0, 0xFF, 0x20)

  /** `Packet::createToBroadcastSelf`, with the retry count set afterwards. */
  function BroadcastPacket(c: Config, dataType: byte, value: int, retry: byte, packetNumber: byte): Packet {
    Packet(c.sa, BROADCAST_SELF, Command(true, 2, retry, NORMAL, dataType, packetNumber),
           Messages([MessageSet(c.number, Number(value))]))
  }

  /** The packets of one poll, when the next packet number is `next`. */
  function PacketsFor(c: Config, sent: Sent, next: byte): (ps: seq<Packet>)
    ensures |ps| == if sent.Nothing? then 0 else 1
  {
    match sent
    case Nothing => []
    case ReadOut => [BroadcastPacket(c, READ, 1, 0, next)]
    case Demand(value, retry) => [BroadcastPacket(c, c.dataType, value, Byte(retry), next)]
  }

  /** `Packet::pkt_counter` */
  class PacketCounter {
    var next: byte

    constructor ()
      ensures next == 0
    {
      next := 0;
    }

    method Take() returns (number: byte)
      modifies this
      ensures number == old(next) && next == Byte(old(next) + 1)
    {
      number := next;
      var successor: int := next + 1;
      next := Byte(successor);
    }
  }

  // ---------------------------------------------------------------- options of enumerations

  datatype Entry = Entry(text: string, raw: int)

  /** `i_str_` after the options have been added in order: the last label of a raw value stays. */
  function LabelOf(options: seq<Entry>): map<int, string> {
    if options == [] then map[]
    else
      var n := |options| - 1;
      LabelOf(options[..n])[options[n].raw := options[n].text]
  }

  /** `str_i_` */
  function RawOf(options: seq<Entry>): map<string, int> {
    if options == [] then map[]
    else
      var n := |options| - 1;
      RawOf(options[..n])[options[n].text := options[n].raw]
  }

  datatype Kind = Plain | Binary | Enumeration

  /** What a payload comes to: nothing, a wish, or the exception of `std::stoi`. */
  datatype Wish = NoWish | Value(v: int) | Throws

  /** The value an MQTT payload asks for. */
  function Wanted(c: Config, kind: Kind, strI: map<string, int>, payload: string): Wish {
    match kind
    case Plain =>
      if c.dataType != REQUEST && c.dataType != WRITE then NoWish
      else if Stoi(payload).Some? then Value(Stoi(payload).value) else Throws
    case Enumeration => if payload in strI then Value(strI[payload]) else NoWish
    case Binary => Value(if payload == "ON" then 1 else 0)
  }

  /** `getMqttPayload` */
  function MqttPayload(kind: Kind, iStr: map<int, string>, valIs: int): string {
    match kind
    case Plain => if valIs == INT_MAX then "" else ToString(valIs)
    case Enumeration => if valIs in iStr then iStr[valIs] else ""
    case Binary => if valIs == 0 then "OFF" else "ON"
  }

  /** `NasaMsgHandler` with its MQTT subclasses, told apart by `kind`. */
  class NasaMqttHandler {
    const config: Config
    const kind: Kind
    const topic: string
    var valIs: int
    var valNew: int
    var retryCtr: nat
    var iStr: map<int, string>
    var strI: map<string, int>

    constructor (config: Config, kind: Kind, topic: string)
      ensures this.config == config && this.kind == kind && this.topic == topic
      ensures View() == INITIAL && iStr == map[] && strI == map[]
    {
      this.config, this.kind, this.topic := config, kind, topic;
      valIs, valNew, retryCtr := INT_MAX, INT_MAX, 0;
      iStr, strI := map[], map[];
    }

    function View(): State
      reads this
    {
      State(valIs, valNew, retryCtr)
    }

    /** `init`: enumerations take their options in a loop, the other kinds have none. */
    method Init(options: seq<Entry>)
      requires iStr == map[] && strI == map[]
      modifies this
      ensures View() == old(View())
      ensures iStr == if kind.Enumeration? then LabelOf(options) else map[]
      ensures strI == if kind.Enumeration? then RawOf(options) else map[]
    {
      if !kind.Enumeration? {
        return;
      }
      var i := 0;
      while i < |options|
        invariant 0 <= i <= |options| && View() == old(View())
        invariant iStr == LabelOf(options[..i]) && strI == RawOf(options[..i])
      {
        assert options[..i + 1][..i] == options[..i];
        iStr := iStr[options[i].raw := options[i].text];
        strI := strI[options[i].text := options[i].raw];
        i := i + 1;
      }
      assert options[..|options|] == options;
    }

    method GetPacket(pkts: seq<Packet>, counter: PacketCounter) returns (pkts': seq<Packet>)
      modifies this, counter
      ensures View() == Poll(config, old(View())).state && iStr == old(iStr) && strI == old(strI)
      ensures pkts' == pkts + PacketsFor(config, Poll(config, old(View())).sent, old(counter.next))
      ensures counter.next == if Poll(config, old(View())).sent.Nothing? then old(counter.next) else Byte(old(counter.next) + 1)
    {
      if valIs == INT_MAX && config.initialReadOut {
        var number := counter.Take();
        return pkts + [BroadcastPacket(config, READ, 1, 0, number)];
      }
      if valNew == INT_MAX || valIs == valNew || config.dataType == READ {
        return pkts;
      }
      if config.dataType == WRITE && config.disableWriteSend {
        valNew := valIs;
        ResetRetryCounter();
        return pkts;
      }
      if retryCtr > 10 {
        valNew := valIs;
        ResetRetryCounter();
        return pkts;
      }
      var number := counter.Take();
      var pkt := BroadcastPacket(config, config.dataType, valNew, 0, number);
      pkt := pkt.(command := pkt.command.(retryCount := Byte(retryCtr)));
      retryCtr := retryCtr + 1;
      return pkts + [pkt];
    }

    method UpdateValue(msg: MessageSet)
      requires Typed(msg)
      modifies this
      ensures View() == Report(config, old(View()), msg) && iStr == old(iStr) && strI == old(strI)
    {
      if msg.number != config.number {
        return;
      }
      match MessageTypeOf(config.number) {
        case Enum => valIs := Int32(msg.payload.value);
        case Variable => valIs := Int16(msg.payload.value);
        case LongVariable => valIs := Int32(msg.payload.value);
        case Structure =>
      }
      if valIs == valNew {
        valNew := INT_MAX;
      }
    }

    /** `thrown` tells that `std::stoi` threw; then nothing has changed. */
    method UpdateValueNew(payload: string) returns (thrown: bool)
      modifies this
      ensures valIs == old(valIs) && iStr == old(iStr) && strI == old(strI)
      ensures var wish := Wanted(config, kind, old(strI), payload);
              && (thrown <==> wish.Throws?)
              && (valNew == if wish.Value? then wish.v else old(valNew))
              && (retryCtr == if kind.Plain? || !wish.Value? then old(retryCtr) else 0)
    {
      match kind {
        case Plain =>
          if config.dataType == REQUEST || config.dataType == WRITE {
            var number := Stoi(payload);
            if number.None? {
              return true;
            }
            valNew := number.value;
          }
        case Enumeration =>
          if payload !in strI {
            return false;
          }
          valNew := strI[payload];
          retryCtr := 0;
        case Binary =>
          if payload == "ON" {
            valNew := 1;
          } else {
            valNew := 0;
          }
          retryCtr := 0;
      }
      return false;
    }

    method ResetRetryCounter()
      modifies this`retryCtr
      ensures retryCtr == 0
    {
      retryCtr := 0;
    }

    function GetMqttPayload(): string
      reads this
    {
      MqttPayload(kind, iStr, valIs)
    }
  }
}
