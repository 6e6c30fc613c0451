/**
 The stream decoder `NasaProtocol::decode` (src/nasa_protocol.cpp): it cuts frames out of a byte deque,
 skips what cannot start a frame, and leaves what may still grow into one.
 */
module Stream {
  import opened Bytes
  import opened Packets

  /** The first bytes may be a frame header: start byte and a length field between 16 and 1500. */
  predicate Plausible(data: seq<byte>) {
    |data| > 16 && data[0] == START && 16 <= Pair(data[1], data[2]) <= 1500
  }

  function FrameLength(data: seq<byte>): nat
    requires |data| > 16
  {
    var size: int := Pair(data[1], data[2]);
    size + 2
  }

  predicate IsAck(p: Packet) {
    p.command.dataType == ACK || p.command.dataType == NACK
  }

  /** What one complete frame contributes: its packet, unless it is rejected or an acknowledgement. */
  function Deliver(frame: seq<byte>): seq<Packet>
    requires frame != []
  {
    match Decode(frame)
    case Ok(p) => if IsAck(p) then [] else [p]
    case _ => []
  }

  datatype Parsed = Parsed(packets: seq<Packet>, rest: seq<byte>)

  function Parse(data: seq<byte>): Parsed
    decreases |data|
  {
    if |data| <= 16 then Parsed([], data)
    else if !Plausible(data) then Parse(data[1..])
    else if |data| < FrameLength(data) then Parsed([], data)
    else
      var n := FrameLength(data);
      var later := Parse(data[n..]);
      Parsed(Deliver(data[..n]) + later.packets, later.rest)
  }

  /** A `std::deque<uint8_t>`. */
  class ByteDeque {
    var bytes: seq<byte>

    constructor ()
      ensures bytes == []
    {
      bytes := [];
    }
  }

  /** One turn of the loop, with `before` delivered already. */
  lemma ParseOnce(data: seq<byte>, before: seq<Packet>)
    requires |data| > 16
    ensures !Plausible(data) ==> Parse(data) == Parse(data[1..])
    ensures Plausible(data) && |data| < FrameLength(data) ==> Parse(data) == Parsed([], data) && before + [] == before
    ensures Plausible(data) && FrameLength(data) <= |data| ==>
      var n := FrameLength(data);
      && Parse(data).rest == Parse(data[n..]).rest
      && before + Parse(data).packets == (before + Deliver(data[..n])) + Parse(data[n..]).packets
  {
    hide Deliver;
    if Plausible(data) && FrameLength(data) <= |data| {
      var n := FrameLength(data);
      var later := Parse(data[n..]);
      assert before + (Deliver(data[..n]) + later.packets) == (before + Deliver(data[..n])) + later.packets;
    }
  }

  lemma ParseShort(data: seq<byte>)
    ensures |data| <= 16 ==> Parse(data) == Parsed([], data)
  {
  }

  lemma DeliverOne(frame: seq<byte>)
    requires frame != []
    ensures Deliver(frame) == if Decode(frame).Ok? && !IsAck(Decode(frame).packet) then [Decode(frame).packet] else []
  {
    hide Decode;
  }

  /** `NasaProtocol::decode`, popping and erasing from the front of the deque. */
  method DecodeStream(data: ByteDeque) returns (pktsOut: seq<Packet>)
    modifies data
    ensures Parsed(pktsOut, data.bytes) == Parse(old(data.bytes))
  {
    hide Decode, Parse, Deliver;
    pktsOut := [];
    while |data.bytes| > 16
      invariant Parse(old(data.bytes)) ==
        Parsed(pktsOut + Parse(data.bytes).packets, Parse(data.bytes).rest)
      decreases |data.bytes|
    {
      ParseOnce(data.bytes, pktsOut);
      if data.bytes[0] != START {
        data.bytes := data.bytes[1..];
        continue;
      }
      var expectedSize: int := Pair(data.bytes[1], data.bytes[2]);
      if expectedSize > 1500 || expectedSize < 16 {
        data.bytes := data.bytes[1..];
        continue;
      }
      if |data.bytes| < expectedSize + 2 {
        return;
      }
      DeliverOne(data.bytes[..expectedSize + 2]);
      var result := DecodePacket(data.bytes[..expectedSize + 2]);
      if result.Ok? {
        if result.packet.command.dataType != ACK && result.packet.command.dataType != NACK {
          pktsOut := pktsOut + [result.packet];
        }
      }
      data.bytes := data.bytes[expectedSize + 2..];
    }
    ParseShort(data.bytes);
  }

  // ---------------------------------------------------------------- fragmentation

  /** Parsing `a`, keeping what is left, and parsing on when `b` has arrived. */
  function Resume(a: Parsed, b: seq<byte>): Parsed {
    var later := Parse(a.rest + b);
    Parsed(a.packets + later.packets, later.rest)
  }

  lemma {:induction false} ParseAppend(a: seq<byte>, b: seq<byte>)
    ensures Parse(a + b) == Resume(Parse(a), b)
    decreases |a|
  {
    hide Decode;
    if |a| > 16 && !Plausible(a) {
      assert !Plausible(a + b);
      assert (a + b)[1..] == a[1..] + b;
      ParseAppend(a[1..], b);
    } else if |a| > 16 && FrameLength(a) <= |a| {
      var n := FrameLength(a);
      assert (a + b)[..n] == a[..n] && (a + b)[n..] == a[n..] + b;
      ParseAppend(a[n..], b);
      var first, later := Parse(a[n..]), Resume(Parse(a[n..]), b);
      assert Deliver(a[..n]) + later.packets
          == (Deliver(a[..n]) + first.packets) + Parse(first.rest + b).packets;
    }
  }

  /** Feeding chunks one after the other to a decoder that holds `state`. */
  function Feed(state: Parsed, chunks: seq<seq<byte>>): Parsed
    decreases |chunks|
  {
    if chunks == [] then state else Feed(Resume(state, chunks[0]), chunks[1..])
  }

  lemma {:induction false} FeedFrom(a: seq<byte>, chunks: seq<seq<byte>>)
    ensures Feed(Parse(a), chunks) == Parse(a + Flatten(chunks))
    decreases |chunks|
  {
    if chunks == [] {
      assert a + Flatten(chunks) == a;
    } else {
      ParseAppend(a, chunks[0]);
      FeedFrom(a + chunks[0], chunks[1..]);
      assert a + chunks[0] + Flatten(chunks[1..]) == a + Flatten(chunks);
    }
  }

  /** However a stream is cut into chunks, the same packets come out and the same bytes are left. */
  lemma Fragmentation(chunks: seq<seq<byte>>)
    ensures Feed(Parsed([], []), chunks) == Parse(Flatten(chunks))
  {
    FeedFrom([], chunks);
    assert [] + Flatten(chunks) == Flatten(chunks);
  }

  // ---------------------------------------------------------------- what was read

  datatype Token = Skip(b: byte) | Whole(frame: seq<byte>)

  function TokenBytes(ts: seq<Token>): seq<byte> {
    if ts == [] then []
    else (match ts[0] case Skip(b) => [b] case Whole(f) => f) + TokenBytes(ts[1..])
  }

  /** The frames among the tokens that pass every check of `Packet::decode`, in order. */
  function Accepted(ts: seq<Token>): seq<seq<byte>> {
    if ts == [] then []
    else
      var later := Accepted(ts[1..]);
      match ts[0]
      case Skip(_) => later
      case Whole(f) => if f != [] && Decode(f).Ok? then [f] + later else later
  }

  function PacketsOf(frames: seq<seq<byte>>): seq<Packet>
    requires forall i :: 0 <= i < |frames| ==> frames[i] != [] && Decode(frames[i]).Ok?
  {
    seq(|frames|, i requires 0 <= i < |frames| => Decode(frames[i]).packet)
  }

  function Keep(ps: seq<Packet>): seq<Packet> {
    if ps == [] then [] else (if IsAck(ps[0]) then [] else [ps[0]]) + Keep(ps[1..])
  }

  /** Nothing can be done yet: too short for a header, or the start of a frame that is still incomplete. */
  predicate Stuck(data: seq<byte>) {
    |data| <= 16 || (Plausible(data) && |data| < FrameLength(data))
  }

  /**
   `ts` is a way to read `data` down to `rest`: single bytes are skipped only where no header is plausible,
   frames are taken whole where one is and all its bytes are there, and reading stops only when stuck.
   */
  predicate Reading(data: seq<byte>, ts: seq<Token>, rest: seq<byte>)
    decreases |ts|
  {
    if ts == [] then Stuck(data) && rest == data
    else
      match ts[0]
      case Skip(b) => !Stuck(data) && !Plausible(data) && data[0] == b && Reading(data[1..], ts[1..], rest)
      case Whole(f) => Plausible(data) && |f| == FrameLength(data) <= |data| && f == data[..|f|]
                       && Reading(data[|f|..], ts[1..], rest)
  }

  lemma {:induction false} ReadingExists(data: seq<byte>) returns (ts: seq<Token>)
    ensures Reading(data, ts, Parse(data).rest)
    decreases |data|
  {
    hide Decode;
    if Stuck(data) {
      ts := [];
    } else if !Plausible(data) {
      var later := ReadingExists(data[1..]);
      ts := [Skip(data[0])] + later;
      assert ts[1..] == later;
    } else {
      var n := FrameLength(data);
      var later := ReadingExists(data[n..]);
      ts := [Whole(data[..n])] + later;
      assert ts[1..] == later;
    }
  }

  lemma {:induction false} AcceptedDecode(ts: seq<Token>)
    ensures forall i :: 0 <= i < |Accepted(ts)| ==> Accepted(ts)[i] != [] && Decode(Accepted(ts)[i]).Ok?
  {
    hide Decode;
    if ts != [] {
      AcceptedDecode(ts[1..]);
    }
  }

  lemma {:induction false} KeepFirst(frames: seq<seq<byte>>)
    requires frames != [] && forall i :: 0 <= i < |frames| ==> frames[i] != [] && Decode(frames[i]).Ok?
    ensures Keep(PacketsOf(frames)) == Deliver(frames[0]) + Keep(PacketsOf(frames[1..]))
  {
    hide Decode;
    var ps := PacketsOf(frames);
    assert ps[1..] == PacketsOf(frames[1..]) && ps[0] == Decode(frames[0]).packet;
  }

  /** The decoder's result is the only one a reading can have. */
  lemma {:induction false} ReadingDecides(data: seq<byte>, ts: seq<Token>, rest: seq<byte>)
    requires Reading(data, ts, rest)
    ensures forall i :: 0 <= i < |Accepted(ts)| ==> Accepted(ts)[i] != [] && Decode(Accepted(ts)[i]).Ok?
    ensures Parse(data) == Parsed(Keep(PacketsOf(Accepted(ts))), rest)
    decreases |ts|
  {
    hide Decode;
    AcceptedDecode(ts);
    if ts != [] {
      var n := if ts[0].Skip? then 1 else |ts[0].frame|;
      AcceptedDecode(ts[1..]);
      ReadingDecides(data[n..], ts[1..], rest);
      if ts[0].Whole? && Decode(ts[0].frame).Ok? {
        KeepFirst(Accepted(ts));
        assert Accepted(ts)[1..] == Accepted(ts[1..]);
      }
    }
  }

  lemma {:induction false} ReadingCovers(data: seq<byte>, ts: seq<Token>, rest: seq<byte>)
    requires Reading(data, ts, rest)
    ensures data == TokenBytes(ts) + rest
    decreases |ts|
  {
    if ts == [] {
      assert data == [] + rest;
    } else {
      var n := if ts[0].Skip? then 1 else |ts[0].frame|;
      ReadingCovers(data[n..], ts[1..], rest);
      assert ts[0].Skip? ==> data[..1] == [data[0]];
      hide Reading, Plausible;
      Rejoin(data, n, TokenBytes(ts[1..]), rest);
    }
  }

  lemma Rejoin(data: seq<byte>, n: nat, more: seq<byte>, rest: seq<byte>)
    requires n <= |data| && data[n..] == more + rest
    ensures data == (data[..n] + more) + rest
  {
    assert data == data[..n] + data[n..];
  }

  lemma {:induction false} ReadingEndsStuck(data: seq<byte>, ts: seq<Token>, rest: seq<byte>)
    requires Reading(data, ts, rest)
    ensures Stuck(rest) && |rest| <= 1501
    decreases |ts|
  {
    if ts != [] {
      ReadingEndsStuck(data[if ts[0].Skip? then 1 else |ts[0].frame|..], ts[1..], rest);
    }
  }

  /**
   What the decoder does to any input: it is partitioned, in order, into skipped bytes, whole frames and a
   residual of at most 1501 bytes; the packets are those of the accepted frames without acknowledgements.
   */
  lemma ParseTrace(data: seq<byte>) returns (ts: seq<Token>)
    ensures Reading(data, ts, Parse(data).rest)
    ensures data == TokenBytes(ts) + Parse(data).rest
    ensures |Parse(data).rest| <= 1501
    ensures forall i :: 0 <= i < |Accepted(ts)| ==> Accepted(ts)[i] != [] && Decode(Accepted(ts)[i]).Ok?
    ensures Parse(data).packets == Keep(PacketsOf(Accepted(ts)))
  {
    hide Decode;
    ts := ReadingExists(data);
    ReadingCovers(data, ts, Parse(data).rest);
    ReadingEndsStuck(data, ts, Parse(data).rest);
    ReadingDecides(data, ts, Parse(data).rest);
  }

  // ---------------------------------------------------------------- streams of frames

  /** A byte string the decoder takes for one frame, whatever follows it. */
  predicate IsUnit(f: seq<byte>) {
    |f| > 16 && Plausible(f) && |f| == FrameLength(f)
  }

  predicate AllUnits(fs: seq<seq<byte>>) {
    forall i :: 0 <= i < |fs| ==> IsUnit(fs[i])
  }

  function DeliverAll(fs: seq<seq<byte>>): seq<Packet>
    requires AllUnits(fs)
  {
    if fs == [] then [] else Deliver(fs[0]) + DeliverAll(fs[1..])
  }

  /** A stream of frames is decoded frame by frame; whatever follows is decoded on its own. */
  lemma {:induction false} ParseUnits(fs: seq<seq<byte>>, tail: seq<byte>)
    requires AllUnits(fs)
    ensures Parse(Flatten(fs) + tail) == Parsed(DeliverAll(fs) + Parse(tail).packets, Parse(tail).rest)
    decreases |fs|
  {
    hide Decode;
    if fs == [] {
      assert Flatten(fs) + tail == tail;
    } else {
      var data, f, more := Flatten(fs) + tail, fs[0], Flatten(fs[1..]) + tail;
      assert data == f + more;
      assert data[..|f|] == f && data[|f|..] == more;
      assert Plausible(data) && FrameLength(data) == |f|;
      ParseUnits(fs[1..], tail);
      assert Deliver(f) + (DeliverAll(fs[1..]) + Parse(tail).packets) == DeliverAll(fs) + Parse(tail).packets;
    }
  }

  /** Bytes at none of which a header is plausible do not change what is decoded after them. */
  lemma {:induction false} NoiseIsSkipped(noise: seq<byte>, data: seq<byte>)
    requires |data| > 16
    requires forall i :: 0 <= i < |noise| ==> !Plausible((noise + data)[i..])
    ensures Parse(noise + data) == Parse(data)
    decreases |noise|
  {
    hide Decode;
    var all := noise + data;
    if noise == [] {
      assert all == data;
    } else {
      assert all[0..] == all && !Plausible(all[0..]);
      assert all[1..] == noise[1..] + data;
      forall i | 0 <= i < |noise[1..]| ensures !Plausible((noise[1..] + data)[i..]) {
        assert all[i + 1..] == (noise[1..] + data)[i..];
      }
      NoiseIsSkipped(noise[1..], data);
    }
  }
}
