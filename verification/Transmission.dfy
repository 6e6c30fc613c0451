/**
 Packets over a line: what the stream decoder makes of encoded packets, of frames damaged on the way,
 and of noise before them.
 */
module Transmission {
  import opened Bytes
  import opened Gf2
  import opened Crc
  import opened Packets
  import opened Stream
  import opened TwoBitFlips

  /** A packet the stream decoder can return: well formed, with at least one message. */
  predicate Sendable(p: Packet) {
    WellFormed(p) && p.body.sets != []
  }

  predicate AllSendable(ps: seq<Packet>) {
    forall i :: 0 <= i < |ps| ==> Sendable(ps[i])
  }

  function Frames(ps: seq<Packet>): (fs: seq<seq<byte>>)
    requires AllSendable(ps)
    ensures |fs| == |ps|
  {
    seq(|ps|, i requires 0 <= i < |ps| => Encode(ps[i]))
  }

  /** `NasaProtocol::encode` */
  function EncodeAll(ps: seq<Packet>): seq<byte>
    requires AllSendable(ps)
  {
    Flatten(Frames(ps))
  }

  method EncodeStream(ps: seq<Packet>) returns (dataOut: seq<byte>)
    requires AllSendable(ps)
    ensures dataOut == EncodeAll(ps)
  {
    hide Encode, MessageFits;
    dataOut := [];
    var fs := Frames(ps);
    var i := 0;
    while i < |ps|
      invariant 0 <= i <= |ps|
      invariant dataOut + Flatten(fs[i..]) == Flatten(fs)
    {
      assert fs[i..][0] == Encode(ps[i]) && fs[i..][1..] == fs[i + 1..];
      var pktData := EncodePacket(ps[i]);
      assert dataOut + (pktData + Flatten(fs[i + 1..])) == (dataOut + pktData) + Flatten(fs[i + 1..]);
      dataOut := dataOut + pktData;
      i := i + 1;
    }
  }

  lemma ScalarMessageSize(m: MessageSet)
    requires Scalar(m)
    ensures |MessageBytes(m)| >= 3
  {
  }

  lemma EncodedIsUnit(p: Packet)
    requires Scalars(p) && p.body.sets != [] && |Encode(p)| <= 1500
    ensures IsUnit(Encode(p))
  {
    hide Checksum;
    ScalarMessageSize(p.body.sets[0]);
    FrameParts(Content(p));
    FrameFields(Content(p));
  }

  lemma {:induction false} DeliverEncoded(ps: seq<Packet>)
    requires AllSendable(ps)
    ensures AllUnits(Frames(ps)) && DeliverAll(Frames(ps)) == Keep(ps)
  {
    hide Encode, Decode, WellFormed, IsUnit;
    var fs := Frames(ps);
    forall i | 0 <= i < |ps| ensures IsUnit(fs[i]) {
      SendableIsUnit(ps[i]);
    }
    if ps != [] {
      assert Frames(ps[1..]) == fs[1..];
      DeliverEncoded(ps[1..]);
      SendableIsUnit(ps[0]);
    }
  }

  lemma SendableIsUnit(p: Packet)
    requires Sendable(p)
    ensures IsUnit(Encode(p)) && Decode(Encode(p)) == Ok(p)
  {
    RoundTrip(p);
    EncodedIsUnit(p);
  }

  lemma SingleMessageFrame(p: Packet)
    requires Scalars(p) && |p.body.sets| == 1
    ensures |Encode(p)| <= 22
  {
    FrameParts(Content(p));
    var m := p.body.sets[0];
    assert AllMessageBytes(p.body.sets) == MessageBytes(m) + AllMessageBytes([]);
    assert |MessageBytes(m)| <= 6;
  }

  /** Encoded packets come out of the stream decoder again, acknowledgements left out, and only the tail remains. */
  lemma StreamRoundTrip(ps: seq<Packet>, tail: seq<byte>)
    requires AllSendable(ps) && |tail| <= 16
    ensures Parse(EncodeAll(ps) + tail) == Parsed(Keep(ps), tail)
  {
    hide Decode, WellFormed;
    DeliverEncoded(ps);
    ParseUnits(Frames(ps), tail);
    assert Keep(ps) + [] == Keep(ps);
  }

  /** The same behind a prefix at none of whose bytes a header is plausible. */
  lemma StreamRoundTripAfterNoise(noise: seq<byte>, ps: seq<Packet>, tail: seq<byte>)
    requires AllSendable(ps) && ps != [] && |tail| <= 16
    requires forall i :: 0 <= i < |noise| ==> !Plausible((noise + (EncodeAll(ps) + tail))[i..])
    ensures Parse(noise + (EncodeAll(ps) + tail)) == Parsed(Keep(ps), tail)
  {
    hide Decode, Encode, MessageFits;
    SendableIsUnit(ps[0]);
    assert Flatten(Frames(ps)) == Encode(ps[0]) + Flatten(Frames(ps)[1..]);
    NoiseIsSkipped(noise, EncodeAll(ps) + tail);
    StreamRoundTrip(ps, tail);
  }

  /** A frame without messages is accepted by `Packet::decode` but too short for the stream decoder. */
  lemma NoMessagesNoPacket(p: Packet)
    requires WellFormed(p)
    ensures Decode(Encode(p)) == Ok(p)
    ensures Parse(Encode(p)).packets == (if p.body.sets == [] then [] else Keep([p]))
  {
    RoundTrip(p);
    hide Decode, MessageFits;
    if p.body.sets == [] {
      FrameParts(Content(p));
    } else {
      SinglePacket(p);
    }
  }

  lemma SinglePacket(p: Packet)
    requires Sendable(p)
    ensures Parse(Encode(p)) == Parsed(Keep([p]), [])
  {
    hide Decode, Encode, MessageFits;
    StreamRoundTrip([p], []);
    assert Frames([p]) == [Encode(p)];
    assert Flatten([Encode(p)]) == Encode(p) + Flatten([]);
    assert EncodeAll([p]) + [] == Encode(p);
  }

  // ---------------------------------------------------------------- damaged frames

  /** The flipped bits between the header and the end byte: bytes 3 up to and including the checksum. */
  function Flips(f: seq<byte>, g: seq<byte>): Bits
    requires |f| == |g| >= 4
  {
    Xor(BitsOf(f[3..|f| - 1]), BitsOf(g[3..|g| - 1]))
  }

  /** `g` is what arrives when bits of `f` behind the length field and before the end byte are flipped. */
  predicate Damaged(f: seq<byte>, g: seq<byte>) {
    |f| == |g| >= 16 && f[..3] == g[..3] && f[|f| - 1] == g[|g| - 1]
  }

  lemma CodewordOfFrame(f: seq<byte>)
    requires |f| >= 16
    ensures IsZero(Remainder(GENERATOR, BitsOf(f[3..|f| - 1])))
        <==> Pair(f[|f| - 3], f[|f| - 2]) == Checksum(f[3..|f| - 3])
  {
    hide Checksum, BitsOf, Remainder;
    var n := |f|;
    assert f[3..n - 1] == f[3..n - 3] + [f[n - 3], f[n - 2]];
    CodewordCheck(f[3..n - 3], f[n - 3], f[n - 2]);
  }

  /** Damage goes unnoticed exactly when the flipped bits form a multiple of the generator. */
  lemma DetectionIsExact(f: seq<byte>, g: seq<byte>)
    requires f != [] && Decode(f).Ok? && Damaged(f, g)
    ensures IsZero(Remainder(GENERATOR, Flips(f, g))) ==> Decode(g).Ok?
    ensures !IsZero(Remainder(GENERATOR, Flips(f, g))) ==> Decode(g) == CrcError
  {
    hide Checksum, BitsOf, Remainder, Unpack;
    var n := |f|;
    CodewordOfFrame(f);
    CodewordOfFrame(g);
    assert f[0] == f[..3][0] == g[0] && f[1] == f[..3][1] == g[1] && f[2] == f[..3][2] == g[2];
    GeneratorShape();
    var a, b := BitsOf(f[3..n - 1]), BitsOf(g[3..n - 1]);
    RemainderLinear(GENERATOR, a, b);
    XorZero(Remainder(GENERATOR, a), Remainder(GENERATOR, b));
  }

  /** All flipped bits lie within 16 consecutive ones. */
  ghost predicate Burst(f: seq<byte>, g: seq<byte>) {
    Damaged(f, g) && f != g
    && exists w: int :: Within(Flips(f, g), w, 16)
  }

  predicate OddFlips(f: seq<byte>, g: seq<byte>) {
    Damaged(f, g) && Odd(Flips(f, g))
  }

  ghost predicate TwoFlips(f: seq<byte>, g: seq<byte>) {
    Damaged(f, g) && exists i, j :: TwoOnes(Flips(f, g), i, j)
  }

  lemma NoFlips(f: seq<byte>, g: seq<byte>)
    requires Damaged(f, g) && IsZero(Flips(f, g))
    ensures f == g
  {
    hide BitsOf;
    var n := |f|;
    var a, b := f[3..n - 1], g[3..n - 1];
    assert forall i :: 0 <= i < |BitsOf(a)| ==> !Flips(f, g)[i] && BitsOf(a)[i] == BitsOf(b)[i];
    BitsInjective(a, b);
    assert f == f[..3] + a + [f[n - 1]] && g == g[..3] + b + [g[n - 1]];
  }

  /** Every burst of up to 16 bits is noticed. */
  lemma BurstDetected(f: seq<byte>, g: seq<byte>)
    requires f != [] && Decode(f).Ok? && Burst(f, g)
    ensures Decode(g) == CrcError
  {
    hide Decode, BitsOf, Remainder;
    GeneratorShape();
    if IsZero(Flips(f, g)) {
      NoFlips(f, g);
    }
    var w: int :| Within(Flips(f, g), w, 16);
    BurstLeavesRemainder(GENERATOR, Flips(f, g), w);
    DetectionIsExact(f, g);
  }

  /** Every odd number of flipped bits is noticed. */
  lemma OddFlipsDetected(f: seq<byte>, g: seq<byte>)
    requires f != [] && Decode(f).Ok? && OddFlips(f, g)
    ensures Decode(g) == CrcError
  {
    hide Decode, BitsOf, Remainder;
    GeneratorShape();
    OddLeavesRemainder(GENERATOR, Flips(f, g));
    DetectionIsExact(f, g);
  }

  lemma FlipsLength(f: seq<byte>, g: seq<byte>)
    requires |f| == |g| >= 4
    ensures |Flips(f, g)| == 8 * (|f| - 4)
  {
  }

  /** Any two flipped bits are noticed, wherever they are in a frame. */
  lemma TwoFlipsDetected(f: seq<byte>, g: seq<byte>)
    requires f != [] && Decode(f).Ok? && TwoFlips(f, g)
    ensures Decode(g) == CrcError
  {
    hide BitsOf, Remainder, Checksum;
    var i, j :| TwoOnes(Flips(f, g), i, j);
    assert |f| <= 1500;
    hide Decode, Damaged;
    FlipsLength(f, g);
    TwoOnesOrder(Flips(f, g), i, j);
    TwoOnesDivisible(Flips(f, g), i, j);
    DetectionIsExact(f, g);
  }

  // ---------------------------------------------------------------- recovery

  /** `g` is what arrives of packet `p`: its frame, or its frame damaged in a way the checksum always shows. */
  ghost predicate Arrives(p: Packet, g: seq<byte>)
    requires Encodable(p)
  {
    g == Encode(p) || Burst(Encode(p), g) || OddFlips(Encode(p), g) || TwoFlips(Encode(p), g)
  }

  /** The packets whose frames arrive undamaged, without acknowledgements, in order. */
  function Survivors(ps: seq<Packet>, gs: seq<seq<byte>>): seq<Packet>
    requires |ps| == |gs| && AllSendable(ps)
  {
    if ps == [] then []
    else (if gs[0] == Encode(ps[0]) then Keep([ps[0]]) else []) + Survivors(ps[1..], gs[1..])
  }

  lemma DamagedIsUnit(f: seq<byte>, g: seq<byte>)
    requires IsUnit(f) && Damaged(f, g)
    ensures IsUnit(g)
  {
    assert f[0] == f[..3][0] == g[0] && f[1] == f[..3][1] == g[1] && f[2] == f[..3][2] == g[2];
  }

  lemma ArrivalIsHandled(p: Packet, g: seq<byte>)
    requires Sendable(p) && Arrives(p, g)
    ensures IsUnit(g) && Deliver(g) == if g == Encode(p) then Keep([p]) else []
  {
    hide Encode, Decode, MessageFits;
    SendableIsUnit(p);
    if g != Encode(p) {
      DamagedIsUnit(Encode(p), g);
      if Burst(Encode(p), g) {
        BurstDetected(Encode(p), g);
      } else if OddFlips(Encode(p), g) {
        OddFlipsDetected(Encode(p), g);
      } else {
        TwoFlipsDetected(Encode(p), g);
      }
    }
  }

  lemma {:induction false} DeliverArrivals(ps: seq<Packet>, gs: seq<seq<byte>>)
    requires |ps| == |gs| && AllSendable(ps) && forall i :: 0 <= i < |ps| ==> Arrives(ps[i], gs[i])
    ensures AllUnits(gs) && DeliverAll(gs) == Survivors(ps, gs)
  {
    hide Encode, Decode, WellFormed, IsUnit, Arrives;
    forall i | 0 <= i < |ps| ensures IsUnit(gs[i]) {
      ArrivalIsHandled(ps[i], gs[i]);
    }
    if ps != [] {
      ArrivalIsHandled(ps[0], gs[0]);
      assert forall i :: 0 <= i < |ps[1..]| ==> ps[1..][i] == ps[i + 1] && gs[1..][i] == gs[i + 1];
      DeliverArrivals(ps[1..], gs[1..]);
    }
  }

  /**
   Whichever frames of a stream are damaged, each by a burst, by two flipped bits or by an odd number of them,
   the decoder returns exactly the packets of the others, in order, and consumes every byte up to the tail.
   */
  lemma Recovery(ps: seq<Packet>, gs: seq<seq<byte>>, tail: seq<byte>)
    requires |ps| == |gs| && AllSendable(ps) && forall i :: 0 <= i < |ps| ==> Arrives(ps[i], gs[i])
    requires |tail| <= 16
    ensures Parse(Flatten(gs) + tail) == Parsed(Survivors(ps, gs), tail)
  {
    hide Encode, Decode, WellFormed, IsUnit, Arrives;
    DeliverArrivals(ps, gs);
    ParseUnits(gs, tail);
    assert Survivors(ps, gs) + [] == Survivors(ps, gs);
  }
}
