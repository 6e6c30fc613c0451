/**
 The decoder between threads (`NasaProtocol`, src/nasa_protocol.cpp) and in the main loop of the bridge
 (apps/tcp_hass_bridge.cpp). Each critical section is one atomic step; steps interleave freely.
 */
module Pipeline {
  import opened Basics
  import opened Bytes
  import opened Crc
  import opened Packets
  import opened Stream
  import opened Transmission

  /** The shared buffers, what the loop thread carries between its two sections, and all that was fetched. */
  datatype Pipe = Pipe(dataIn: seq<byte>, inFlight: Option<seq<Packet>>, processed: seq<Packet>, fetched: seq<Packet>)

  datatype Event = Insert(data: seq<byte>) | DecodeSection | PublishSection | Fetch

  const START_PIPE := Pipe([], None, [], [])

  /** The loop thread alternates between its two sections; the other threads may step at any time. */
  predicate Enabled(s: Pipe, e: Event) {
    (e.DecodeSection? ==> s.inFlight.None?) && (e.PublishSection? ==> s.inFlight.Some?)
  }

  /** One atomic step. A step that is not enabled does nothing, so every list of events is a run. */
  function Step(s: Pipe, e: Event): Pipe {
    if !Enabled(s, e) then s
    else
      match e
      case Insert(data) => s.(dataIn := s.dataIn + data)
      case DecodeSection => s.(dataIn := Parse(s.dataIn).rest, inFlight := Some(Parse(s.dataIn).packets))
      case PublishSection => s.(processed := s.processed + s.inFlight.value, inFlight := None)
      case Fetch => s.(fetched := s.fetched + s.processed, processed := [])
  }

  function Run(es: seq<Event>): Pipe {
    if es == [] then START_PIPE else Step(Run(es[..|es| - 1]), es[|es| - 1])
  }

  function Inserted(es: seq<Event>): seq<byte> {
    if es == [] then []
    else Inserted(es[..|es| - 1]) + (if es[|es| - 1].Insert? then es[|es| - 1].data else [])
  }

  /** The bytes inserted before the last decoding step of a run. */
  function Seen(es: seq<Event>): seq<byte> {
    if es == [] then []
    else
      var before, e := es[..|es| - 1], es[|es| - 1];
      if e.DecodeSection? && Enabled(Run(before), e) then Inserted(before) else Seen(before)
  }

  /** The bytes inserted since. */
  function Unseen(es: seq<Event>): seq<byte> {
    if es == [] then []
    else
      var before, e := es[..|es| - 1], es[|es| - 1];
      if e.DecodeSection? && Enabled(Run(before), e) then []
      else Unseen(before) + (if e.Insert? then e.data else [])
  }

  function Output(s: Pipe): seq<Packet> {
    s.fetched + s.processed + (if s.inFlight.Some? then s.inFlight.value else [])
  }

  lemma {:induction false} SeenAndUnseen(es: seq<Event>)
    ensures Inserted(es) == Seen(es) + Unseen(es)
  {
    if es != [] {
      SeenAndUnseen(es[..|es| - 1]);
    }
  }

  /**
   In every interleaving, what has been fetched, waits to be fetched and is in flight is the outcome of
   decoding once all the bytes the last decoding step saw, and the input buffer holds that one decoding's
   residual followed by the bytes inserted since.
   */
  lemma {:induction false} Linearises(es: seq<Event>)
    ensures Output(Run(es)) == Parse(Seen(es)).packets
    ensures Run(es).dataIn == Parse(Seen(es)).rest + Unseen(es)
  {
    hide Parse;
    if es == [] {
      EmptyParse();
    } else {
      var before, e := es[..|es| - 1], es[|es| - 1];
      var s := Run(before);
      Linearises(before);
      SeenAndUnseen(before);
      if Enabled(s, e) {
        match e
        case DecodeSection => ParseAppend(Seen(before), Unseen(before));
        case Insert(data) => assert Parse(Seen(before)).rest + Unseen(before) + data
                                 == Parse(Seen(before)).rest + (Unseen(before) + data);
        case PublishSection => assert s.fetched + (s.processed + s.inFlight.value) == Output(s);
        case Fetch =>
      }
    }
  }

  lemma EmptyParse()
    ensures Parse([]) == Parsed([], [])
  {
    var none: seq<byte> := [];
    assert |none| <= 16;
  }

  lemma RunAppend(es: seq<Event>, e: Event)
    ensures Run(es + [e]) == Step(Run(es), e)
    ensures Inserted(es + [e]) == Inserted(es) + (if e.Insert? then e.data else [])
    ensures Seen(es + [e]) == if e.DecodeSection? && Enabled(Run(es), e) then Inserted(es) else Seen(es)
  {
    assert (es + [e])[..|es|] == es;
  }

  /** Once the loop has gone round once more and a fetch follows, every packet of every inserted byte has been fetched once. */
  lemma DrainedRunFetchesAll(es: seq<Event>)
    ensures Run(es + [PublishSection] + [DecodeSection] + [PublishSection] + [Fetch]).fetched
         == Parse(Inserted(es)).packets
  {
    hide Parse, Run, Seen, Inserted;
    var e1 := es + [PublishSection];
    var e2 := e1 + [DecodeSection];
    var e3 := e2 + [PublishSection];
    RunAppend(es, PublishSection);
    RunAppend(e1, DecodeSection);
    RunAppend(e2, PublishSection);
    RunAppend(e3, Fetch);
    Linearises(e3 + [Fetch]);
    assert Output(Run(e3 + [Fetch])) == Run(e3 + [Fetch]).fetched;
    assert Inserted(es) + [] == Inserted(es);
  }

  /** `NasaProtocol`: the two buffers behind their mutexes, and the local variable of the loop thread. */
  class NasaProtocol {
    const dataIn: ByteDeque
    var dataProcessed: seq<Packet>
    var newPackets: Option<seq<Packet>>
    ghost var fetched: seq<Packet>

    constructor ()
      ensures fresh(dataIn) && View() == START_PIPE
    {
      dataIn := new ByteDeque();
      dataProcessed := [];
      newPackets := None;
      fetched := [];
    }

    ghost function View(): Pipe
      reads this, dataIn
    {
      Pipe(dataIn.bytes, newPackets, dataProcessed, fetched)
    }

    method InsertDataRx(data: seq<byte>)
      modifies dataIn
      ensures View() == Step(old(View()), Insert(data))
    {
      dataIn.bytes := dataIn.bytes + data;
    }

    /** `loop`, under `mtx_data_in_` */
    method LoopDecode()
      requires Enabled(View(), DecodeSection)
      modifies this, dataIn
      ensures View() == Step(old(View()), DecodeSection)
    {
      hide Parse;
      var packets := DecodeStream(dataIn);
      newPackets := Some(packets);
    }

    /** `loop`, under `mtx_data_processed_` */
    method LoopPublish()
      requires Enabled(View(), PublishSection)
      modifies this
      ensures View() == Step(old(View()), PublishSection)
    {
      dataProcessed := dataProcessed + newPackets.value;
      newPackets := None;
    }

    method GetPacketsRx() returns (dataCopy: seq<Packet>)
      modifies this
      ensures View() == Step(old(View()), Fetch)
      ensures fetched == old(fetched) + dataCopy
    {
      dataCopy := dataProcessed;
      dataProcessed := [];
      fetched := fetched + dataCopy;
    }
  }

  // ---------------------------------------------------------------- the main loop of the bridge

  /** One round: clear an oversized buffer, append what was received, decode. `state` is handled packets and buffer. */
  function Round(limit: nat, state: Parsed, received: seq<byte>): Parsed {
    Resume(if |state.rest| > limit then state.(rest := []) else state, received)
  }

  function Rounds(limit: nat, received: seq<seq<byte>>): Parsed {
    if received == [] then Parsed([], [])
    else Round(limit, Rounds(limit, received[..|received| - 1]), received[|received| - 1])
  }

  method MainLoopRound(buffer: ByteDeque, limit: nat, received: seq<byte>) returns (pktsRx: seq<Packet>)
    modifies buffer
    ensures forall handled: seq<Packet> :: Parsed(handled + pktsRx, buffer.bytes)
                                         == Round(limit, Parsed(handled, old(buffer.bytes)), received)
  {
    hide Parse;
    if |buffer.bytes| > limit {
      buffer.bytes := [];
    }
    buffer.bytes := buffer.bytes + received;
    pktsRx := DecodeStream(buffer);
  }

  lemma FlattenLast(parts: seq<seq<byte>>)
    requires parts != []
    ensures Flatten(parts) == Flatten(parts[..|parts| - 1]) + parts[|parts| - 1]
  {
    var n := |parts| - 1;
    FlattenAppend(parts[..n], [parts[n]]);
    assert parts == parts[..n] + [parts[n]];
    assert Flatten([parts[n]]) == parts[n] + Flatten([]);
    assert parts[n] + [] == parts[n];
  }

  lemma {:induction false} RoundsDecodeAll(limit: nat, received: seq<seq<byte>>)
    requires limit >= 1501
    ensures Rounds(limit, received) == Parse(Flatten(received))
  {
    hide Parse, Flatten;
    if received == [] {
      EmptyParse();
      assert Flatten(received) == [] by {
        NoParts();
      }
    } else {
      var n := |received| - 1;
      RoundsDecodeAll(limit, received[..n]);
      BoundedResidual(Flatten(received[..n]));
      ParseAppend(Flatten(received[..n]), received[n]);
      FlattenLast(received);
    }
  }

  lemma NoParts()
    ensures Flatten([]) == []
  {
  }

  lemma BoundedResidual(data: seq<byte>)
    ensures |Parse(data).rest| <= 1501
  {
    var ts := ParseTrace(data);
  }

  /** A frame header that announces 1502 bytes, one byte short of complete. */
  const LONGEST_RESIDUAL: seq<byte> := [START, 0x05, 0xDC] + seq(1498, _ => 0)

  lemma LongestResidual()
    ensures Parse(LONGEST_RESIDUAL) == Parsed([], LONGEST_RESIDUAL) && |LONGEST_RESIDUAL| == 1501
  {
  }

  lemma TooLongFrame()
    ensures IsUnit(LONGEST_RESIDUAL + [START]) && Deliver(LONGEST_RESIDUAL + [START]) == []
  {
  }

  /** Two bytes, a frame, and a zero. With a start byte before them they look like one frame that ends wrongly. */
  function Disguise(p: Packet): seq<byte>
    requires Encodable(p)
  {
    PairBytes(|Encode(p)| + 2) + Encode(p) + [0]
  }

  lemma DisguiseShape(f: seq<byte>, p: Packet)
    requires Encodable(p) && f == [START] + Disguise(p)
    ensures |f| == |Encode(p)| + 4 && f[0] == START && [f[1], f[2]] == PairBytes(|Encode(p)| + 2) && f[|f| - 1] == 0
  {
    hide Encode, PairBytes;
    var length, tail := PairBytes(|Encode(p)| + 2), Encode(p) + [0];
    assert f == [START] + (length + tail) && tail[|tail| - 1] == 0;
  }

  lemma DisguiseIsRejected(p: Packet)
    requires Sendable(p) && |Encode(p)| <= 1498
    ensures Parse([START] + Disguise(p)) == Parsed([], [])
  {
    hide Encode, Checksum, PairBytes, Disguise, Unpack, Decode, Parse, MessageFits, CommandFits, Deliver;
    var n, f := |Encode(p)|, [START] + Disguise(p);
    SendableIsUnit(p);
    DisguiseShape(f, p);
    PairOfBytes(n + 2);
    assert Pair(f[1], f[2]) == Pair(PairBytes(n + 2)[0], PairBytes(n + 2)[1]) == n + 2;
    WrongEnd(f);
    OneUnit(f);
  }

  lemma WrongEnd(f: seq<byte>)
    requires IsUnit(f) && f[|f| - 1] != END
    ensures Deliver(f) == []
  {
    hide Checksum, Unpack;
  }

  lemma OneUnit(f: seq<byte>)
    requires IsUnit(f)
    ensures Parse(f) == Parsed(Deliver(f), [])
  {
    hide Deliver;
    assert f[..|f|] == f && f[|f|..] == [];
    EmptyParse();
    assert Deliver(f) + [] == Deliver(f);
  }

  /** Without the start byte, the frame is found. */
  lemma DisguiseIsRead(p: Packet)
    requires Sendable(p) && !IsAck(p) && |Encode(p)| <= 1498
    ensures Parse(Disguise(p)) == Parsed([p], [0])
  {
    hide Encode, Decode, MessageFits, CommandFits, PairBytes;
    SendableIsUnit(p);
    var noise, f := PairBytes(|Encode(p)| + 2), Encode(p);
    assert noise + (f + [0]) == Disguise(p);
    hide Disguise;
    NotPlausible(noise, f + [0], |f| + 2);
    NoiseIsSkipped(noise, f + [0]);
    FlattenOne(f);
    ParseUnits([f], [0]);
    DeliverSingle(f);
    ShortTail();
  }

  lemma ShortTail()
    ensures Parse([0]) == Parsed([], [0])
  {
    var tail: seq<byte> := [0];
    assert |tail| <= 16;
  }

  lemma FlattenOne(f: seq<byte>)
    ensures Flatten([f]) == f
  {
    assert [f][1..] == [];
    assert f + [] == f;
  }

  lemma DeliverSingle(f: seq<byte>)
    requires IsUnit(f)
    ensures DeliverAll([f]) == Deliver(f)
  {
    hide Deliver;
    assert [f][1..] == [];
    assert Deliver(f) + [] == Deliver(f);
  }

  /** A length below 1536 before a start byte is no header, neither from its first byte nor from its second. */
  lemma NotPlausible(noise: seq<byte>, data: seq<byte>, n: nat)
    requires noise == PairBytes(n) && n < 1536 && |data| > 16 && data[0] == START
    ensures forall i :: 0 <= i < |noise| ==> !Plausible((noise + data)[i..])
  {
    var all := noise + data;
    assert |noise| == 2 && noise[0] < 6;
    assert all[0..][0] == noise[0];
    assert all[1..][0] == noise[1] && all[1..][1] == START;
  }

  lemma OneRound(limit: nat, a: seq<byte>)
    ensures Rounds(limit, [a]) == Round(limit, Parsed([], []), a)
  {
    hide Round;
    assert [a][..0] == [];
    assert Rounds(limit, []) == Parsed([], []);
  }

  lemma TwoRounds(limit: nat, a: seq<byte>, b: seq<byte>)
    ensures Rounds(limit, [a, b]) == Round(limit, Round(limit, Parsed([], []), a), b)
  {
    hide Round;
    assert [a, b][..1] == [a];
    OneRound(limit, a);
  }

  lemma FlattenTwo(a: seq<byte>, b: seq<byte>)
    ensures Flatten([a, b]) == a + b
  {
    assert [a, b][1..] == [b];
    FlattenOne(b);
  }

  /** What is left of the first chunk is cleared before the second one comes. */
  lemma Cleared(limit: nat, a: seq<byte>, b: seq<byte>)
    requires Parse(a) == Parsed([], a) && |a| > limit
    ensures Rounds(limit, [a, b]) == Parse(b)
  {
    hide Parse, Rounds;
    TwoRounds(limit, a, b);
    assert [] + a == a && [] + b == b;
    assert [] + Parse(b).packets == Parse(b).packets;
  }

  lemma AfterUnit(a: seq<byte>, last: byte, b: seq<byte>)
    requires IsUnit(a + [last]) && Deliver(a + [last]) == []
    ensures Parse(Flatten([a, [last] + b])) == Parse(b)
  {
    hide Parse, Deliver, IsUnit, Flatten, DeliverAll;
    var f := a + [last];
    FlattenTwo(a, [last] + b);
    assert a + ([last] + b) == f + b;
    FlattenOne(f);
    ParseUnits([f], b);
    DeliverSingle(f);
    assert [] + Parse(b).packets == Parse(b).packets;
  }

  /**
   With a limit below 1501 there is a run in which the loop consumes every byte and does not handle the packet they
   carry: first all but one byte of a frame that is too long, then its last byte, a length, and the packet.
   */
  lemma PacketLost(limit: nat, p: Packet) returns (received: seq<seq<byte>>)
    requires limit <= 1500 && Sendable(p) && !IsAck(p) && |Encode(p)| <= 1498
    ensures Rounds(limit, received) == Parsed([], [])
    ensures Parse(Flatten(received)).packets == [p]
  {
    LongestResidual();
    TooLongFrame();
    DisguiseIsRejected(p);
    DisguiseIsRead(p);
    hide Parse, Disguise, Deliver, IsUnit, Flatten, Rounds, Encode;
    received := [LONGEST_RESIDUAL, [START] + Disguise(p)];
    Cleared(limit, LONGEST_RESIDUAL, [START] + Disguise(p));
    AfterUnit(LONGEST_RESIDUAL, START, Disguise(p));
  }

  /** A packet with one message. */
  const SAMPLE := Packet(Address(0x80, 0xFF, 0), Address(0xB0, 0xFF, 0x20), Command(true, 2, 0, NORMAL, REQUEST, 0),
                         Messages([MessageSet(0x4000, Number(1))]))

  lemma SampleIsSendable()
    ensures Sendable(SAMPLE) && !IsAck(SAMPLE) && |Encode(SAMPLE)| <= 1498
  {
    hide Encode;
    SingleMessageFrame(SAMPLE);
  }

  /** The main loop handles exactly the packets of all bytes received, in every run, if and only if the limit is at least 1501. */
  lemma BufferLimit(limit: nat)
    ensures (forall received :: Rounds(limit, received).packets == Parse(Flatten(received)).packets) <==> limit >= 1501
  {
    hide Parse, Rounds, Flatten;
    if limit >= 1501 {
      forall received ensures Rounds(limit, received).packets == Parse(Flatten(received)).packets {
        RoundsDecodeAll(limit, received);
      }
    } else {
      SampleIsSendable();
      var received := PacketLost(limit, SAMPLE);
      assert Rounds(limit, received).packets != Parse(Flatten(received)).packets;
    }
  }
}
