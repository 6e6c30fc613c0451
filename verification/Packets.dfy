/**
 Packets and their frames (src/nasa_protocol_types.cpp):
   0x32, length, source, destination, command, message count, messages, checksum, 0x34.
 */
module Packets {
  import opened Bytes
  import opened Crc

  datatype Address = Address(aClass: byte, channel: byte, address: byte)

  datatype Command = Command(packetInformation: bool, protocolVersion: byte, retryCount: byte,
                             packetType: byte, dataType: byte, packetNumber: byte)

  const READ: byte := 1
  const WRITE: byte := 2
  const REQUEST: byte := 3
  const ACK: byte := 6
  const NACK: byte := 7
  const NORMAL: byte := 1

  datatype MessageType = Enum | Variable | LongVariable | Structure

  /** What a message carries: a number, or the buffer of a structure message. */
  datatype Payload = Number(value: int) | Buffer(bytes: seq<byte>)

  datatype MessageSet = MessageSet(number: word, payload: Payload)

  /**
   The messages of a packet. A frame whose message count overruns its bytes makes the C++ decoder read
   behind the vector; what it finds there is unspecified, so the frame itself stands for the messages.
   */
  datatype Body = Messages(sets: seq<MessageSet>) | PastEnd(frame: seq<byte>)

  datatype Packet = Packet(sa: Address, da: Address, command: Command, body: Body)

  datatype DecodeResult =
    | Ok(packet: Packet)
    | InvalidStartByte
    | InvalidEndByte
    | SizeDidNotMatch
    | UnexpectedSize
    | CrcError

  // ---------------------------------------------------------------- fields

  /** Bits 9 and 10 of the message number. */
  function MessageTypeOf(number: word): MessageType {
    match number / 512 % 4
    case 0 => Enum
    case 1 => Variable
    case 2 => LongVariable
    case _ => Structure
  }

  function AddressBytes(a: Address): (bs: seq<byte>)
    ensures |bs| == 3
  {
    [a.aClass, a.channel, a.address]
  }

  function AddressAt(data: seq<byte>, index: nat): Address
    requires index + 3 <= |data|
  {
    Address(data[index], data[index + 1], data[index + 2])
  }

  /** Fields are packed by addition and cut to a byte, so an oversized field carries into its neighbour. */
  function CommandBytes(c: Command): (bs: seq<byte>)
    ensures |bs| == 3
  {
    [Byte((if c.packetInformation then 128 else 0) + c.protocolVersion * 32 + c.retryCount * 8),
     Byte(c.packetType * 16 + c.dataType),
     c.packetNumber]
  }

  function CommandAt(data: seq<byte>, index: nat): Command
    requires index + 3 <= |data|
  {
    Command(data[index] / 128 % 2 == 1, data[index] / 32 % 4, data[index] / 8 % 4,
            data[index + 1] / 16, data[index + 1] % 16, data[index + 2])
  }

  predicate CommandFits(c: Command) {
    c.protocolVersion < 4 && c.retryCount < 4 && c.packetType < 16 && c.dataType < 16
  }

  /** What the receiver reads of a command: each field modulo its width, the overflow added one field up. */
  function CommandOnWire(c: Command): (r: Command)
    ensures r == c <==> CommandFits(c)
  {
    var version := c.protocolVersion + c.retryCount / 4;
    var information := (if c.packetInformation then 1 else 0) + version / 4;
    Command(information % 2 == 1, version % 4, c.retryCount % 4,
            (c.packetType + c.dataType / 16) % 16, c.dataType % 16, c.packetNumber)
  }

  lemma Times8(n: nat)
    ensures 8 * n % 256 == 8 * (n % 32)
  {
  }

  lemma Quotients(k: nat)
    ensures 8 * k / 8 == k && 8 * k / 32 == k / 4 && 8 * k / 128 == k / 16 && 8 * k % 8 == 0
  {
  }

  lemma Modulo32(n: nat)
    ensures n % 32 % 4 == n % 4 && n % 32 / 4 == n / 4 % 8 && n % 32 / 16 == n / 16 % 2
  {
    var q, r := n / 32, n % 32;
    assert n / 4 == 8 * q + r / 4;
    assert n / 16 == 2 * q + r / 16;
  }

  lemma Modulo8(n: nat)
    ensures n % 8 % 4 == n % 4
  {
  }

  lemma Modulo2(n: nat)
    ensures n % 2 % 2 == n % 2
  {
  }

  /** The fields of a byte that holds the five-bit number `n` in its upper bits. */
  lemma Fields(n: nat)
    ensures var b := 8 * n % 256;
            b % 8 == 0 && b / 8 % 4 == n % 4 && b / 32 % 4 == n / 4 % 4 && b / 128 % 2 == n / 16 % 2
  {
    var k := n % 32;
    Times8(n);
    Quotients(k);
    Modulo32(n);
    Modulo8(n / 4);
    Modulo2(n / 16);
  }

  lemma FieldSum(information: nat, version: nat, retries: nat)
    ensures var n, v := information * 16 + version * 4 + retries, version + retries / 4;
            n % 4 == retries % 4 && n / 4 % 4 == v % 4 && n / 16 % 2 == (information + v / 4) % 2
  {
    var n: nat, v: nat := information * 16 + version * 4 + retries, version + retries / 4;
    assert n / 4 == 4 * information + v;
    assert n / 16 == information + v / 4;
  }

  lemma Nibbles(high: byte, low: byte)
    ensures var b := Byte(high * 16 + low); b / 16 == (high + low / 16) % 16 && b % 16 == low % 16
  {
    var sum: nat, carry: nat := high + low / 16, low % 16;
    Modulo16(sum);
    assert high * 16 + low == 256 * (sum / 16) + (16 * (sum % 16) + carry);
    Remainder256(sum / 16, 16 * (sum % 16) + carry);
    Sixteens(sum % 16, carry);
  }

  lemma Modulo16(n: nat)
    ensures n == 16 * (n / 16) + n % 16 && 0 <= n % 16 < 16
  {
  }

  lemma Remainder256(q: nat, r: nat)
    requires r < 256
    ensures (256 * q + r) % 256 == r
  {
  }

  lemma Sixteens(q: nat, r: nat)
    requires r < 16
    ensures (16 * q + r) / 16 == q && (16 * q + r) % 16 == r
  {
  }

  lemma CommandRoundTrip(c: Command)
    ensures CommandAt(CommandBytes(c), 0) == CommandOnWire(c)
  {
    var information: nat := if c.packetInformation then 1 else 0;
    var version: nat, retries: nat := c.protocolVersion, c.retryCount;
    var n: nat := information * 16 + version * 4 + retries;
    assert CommandBytes(c)[0] == 8 * n % 256;
    Fields(n);
    FieldSum(information, version, retries);
    Nibbles(c.packetType, c.dataType);
  }

  lemma ByteFields(b: byte)
    ensures b == b / 128 % 2 * 128 + b / 32 % 4 * 32 + b / 8 % 4 * 8 + b % 8
  {
    var q: nat := b / 8;
    assert q < 32 && b == 8 * q + b % 8;
    assert b / 32 == q / 4 && b / 128 == q / 16;
    assert q == 4 * (q / 4) + q % 4 && q / 4 == 4 * (q / 16) + q / 4 % 4 && q / 16 < 2;
  }

  lemma CommandReverse(data: seq<byte>, index: nat)
    requires index + 3 <= |data|
    ensures CommandBytes(CommandAt(data, index)) == data[index..index + 3] <==> data[index] % 8 == 0
  {
    ByteFields(data[index]);
    assert data[index + 1] == data[index + 1] / 16 * 16 + data[index + 1] % 16;
    var bs, slice := CommandBytes(CommandAt(data, index)), data[index..index + 3];
    assert slice[0] == data[index] && slice[1] == data[index + 1] && slice[2] == data[index + 2];
    assert bs[0] == data[index] - data[index] % 8;
    assert bs[1] == data[index + 1] && bs[2] == data[index + 2];
  }

  // ---------------------------------------------------------------- messages

  const TWO_32: int := 0x1_0000_0000

  /** An unsigned 32-bit number read as `int`. */
  function Signed32(n: int): int {
    if n < 0x8000_0000 then n else n - TWO_32
  }

  predicate Typed(m: MessageSet) {
    m.payload.Buffer? <==> MessageTypeOf(m.number) == Structure
  }

  predicate Scalar(m: MessageSet) {
    MessageTypeOf(m.number) != Structure && m.payload.Number?
  }

  predicate AllTyped(ms: seq<MessageSet>) {
    forall i :: 0 <= i < |ms| ==> Typed(ms[i])
  }

  predicate AllScalar(ms: seq<MessageSet>)
    ensures AllScalar(ms) ==> AllTyped(ms)
  {
    forall i :: 0 <= i < |ms| ==> Scalar(ms[i])
  }

  function NumberBytes(t: MessageType, value: int): seq<byte> {
    match t
    case Enum => [Byte(value)]
    case Variable => PairBytes(value)
    case LongVariable => PairBytes(value / 65536) + PairBytes(value)
    case Structure => []
  }

  function MessageBytes(m: MessageSet): seq<byte>
    requires Typed(m)
  {
    PairBytes(m.number) +
    match m.payload
    case Number(value) => NumberBytes(MessageTypeOf(m.number), value)
    case Buffer(bytes) => bytes
  }

  function AllMessageBytes(ms: seq<MessageSet>): seq<byte>
    requires AllTyped(ms)
  {
    if ms == [] then [] else MessageBytes(ms[0]) + AllMessageBytes(ms[1..])
  }

  /** Bytes of a scalar message on the wire, number included. */
  function ScalarSize(t: MessageType): nat {
    match t
    case Enum => 3
    case Variable => 4
    case LongVariable => 6
    case Structure => 2
  }

  function NumberAt(t: MessageType, data: seq<byte>, index: nat): int
    requires index + ScalarSize(t) <= |data|
  {
    match t
    case Enum => data[index + 2]
    case Variable => Pair(data[index + 2], data[index + 3])
    case LongVariable => Signed32(Pair(data[index + 2], data[index + 3]) * 65536 + Pair(data[index + 4], data[index + 5]))
    case Structure => 0
  }

  datatype Piece = Piece(message: MessageSet, size: nat) | Beyond

  /** `MessageSet::decode`: the message at `index`, and how far the cursor moves. */
  function MessageAt(data: seq<byte>, index: nat, capacity: nat): Piece {
    if index + 2 > |data| then Beyond
    else
      var number := Pair(data[index], data[index + 1]);
      var t := MessageTypeOf(number);
      if index + ScalarSize(t) > |data| then Beyond
      else if t != Structure then Piece(MessageSet(number, Number(NumberAt(t, data, index))), ScalarSize(t))
      else if capacity != 1 then Piece(MessageSet(number, Buffer([])), 2)
      else
        // the buffer is filled from the start of the frame, its length cut to a byte
        var size := (|data| - index - 3) % 65536;
        var length := (size - 2) % 256;
        if length > |data| then Beyond else Piece(MessageSet(number, Buffer(data[..length])), size)
  }

  /** The decoding loop: `count` further messages from `cursor` on. */
  function BodyAt(data: seq<byte>, cursor: nat, capacity: nat, count: nat): Body
    decreases count
  {
    if count == 0 then Messages([])
    else
      match MessageAt(data, cursor, capacity)
      case Beyond => PastEnd(data)
      case Piece(m, size) =>
        match BodyAt(data, cursor + size, capacity, count - 1)
        case PastEnd(_) => PastEnd(data)
        case Messages(ms) => Messages([m] + ms)
  }

  /** The number a receiver reads when `value` is sent in a message of type `t`. */
  function NumberOnWire(t: MessageType, value: int): int {
    match t
    case Enum => value % 256
    case Variable => value % 65536
    case LongVariable => Signed32(value % TWO_32)
    case Structure => value
  }

  predicate NumberFits(t: MessageType, value: int) {
    match t
    case Enum => 0 <= value < 256
    case Variable => 0 <= value < 65536
    case LongVariable => -0x8000_0000 <= value < 0x8000_0000
    case Structure => true
  }

  lemma NumberOnWireFits(t: MessageType, value: int)
    ensures NumberFits(t, NumberOnWire(t, value))
    ensures NumberOnWire(t, value) == value <==> NumberFits(t, value)
  {
  }

  lemma LongOfPairs(value: int)
    ensures value / 65536 % 65536 * 65536 + value % 65536 == value % TWO_32
  {
  }

  lemma NumberRoundTrip(t: MessageType, value: int, data: seq<byte>, index: nat)
    requires t != Structure && index + ScalarSize(t) <= |data|
    requires forall k :: 0 <= k < ScalarSize(t) - 2 ==> data[index + 2 + k] == NumberBytes(t, value)[k]
    ensures NumberAt(t, data, index) == NumberOnWire(t, value)
  {
    var bs := NumberBytes(t, value);
    assert data[index + 2 + 0] == bs[0];
    if t == LongVariable {
      PairOfBytes(value / 65536);
      PairOfBytes(value);
      LongOfPairs(value);
      assert data[index + 2 + 1] == bs[1] && data[index + 2 + 2] == bs[2] && data[index + 2 + 3] == bs[3];
    } else if t == Variable {
      PairOfBytes(value);
      assert data[index + 2 + 1] == bs[1];
    }
  }

  // ---------------------------------------------------------------- frames

  const START: byte := 0x32
  const END: byte := 0x34

  /** Start byte, length field, content, checksum of the content, end byte. */
  function Frame(content: seq<byte>): (f: seq<byte>)
    ensures |f| == |content| + 6
  {
    [START] + PairBytes(|content| + 4) + content + PairBytes(Checksum(content)) + [END]
  }

  predicate Scalars(p: Packet) {
    p.body.Messages? && AllScalar(p.body.sets)
  }

  predicate Encodable(p: Packet) {
    p.body.Messages? && AllTyped(p.body.sets)
  }

  function Content(p: Packet): seq<byte>
    requires Encodable(p)
  {
    AddressBytes(p.sa) + AddressBytes(p.da) + CommandBytes(p.command)
    + [Byte(|p.body.sets|)] + AllMessageBytes(p.body.sets)
  }

  /** `Packet::encode` */
  function Encode(p: Packet): seq<byte>
    requires Encodable(p)
  {
    Frame(Content(p))
  }

  function Unpack(data: seq<byte>): Packet
    requires |data| >= 16
  {
    Packet(AddressAt(data, 3), AddressAt(data, 6), CommandAt(data, 9), BodyAt(data, 13, data[12], data[12]))
  }

  /** `Packet::decode`, with its checks in their order. */
  function Decode(data: seq<byte>): DecodeResult
    requires data != []
  {
    var n := |data|;
    if data[0] != START then InvalidStartByte
    else if n < 16 || n > 1500 then UnexpectedSize
    else if Pair(data[1], data[2]) + 2 != n then SizeDidNotMatch
    else if data[n - 1] != END then InvalidEndByte
    else if Pair(data[n - 3], data[n - 2]) != Checksum(data[3..n - 3]) then CrcError
    else Ok(Unpack(data))
  }

  lemma FrameParts(content: seq<byte>)
    ensures var f, n := Frame(content), |content| + 6;
            && f[0] == START && f[n - 1] == END && f[3..n - 3] == content
            && [f[1], f[2]] == PairBytes(|content| + 4)
            && [f[n - 3], f[n - 2]] == PairBytes(Checksum(content))
  {
  }

  lemma Parts(data: seq<byte>, n: nat)
    requires |data| == n >= 6
    ensures data == [data[0]] + [data[1], data[2]] + data[3..n - 3] + [data[n - 3], data[n - 2]] + [data[n - 1]]
  {
  }

  lemma ReadPair(hi: byte, lo: byte, n: nat)
    requires [hi, lo] == PairBytes(n) && n < 65536
    ensures Pair(hi, lo) == n
  {
    PairOfBytes(n);
    hide PairBytes, Pair;
    assert hi == PairBytes(n)[0] && lo == PairBytes(n)[1];
  }

  lemma FrameFields(content: seq<byte>)
    requires |content| <= 1494
    ensures var f, n := Frame(content), |content| + 6;
            Pair(f[1], f[2]) == n - 2 && Pair(f[n - 3], f[n - 2]) == Checksum(content)
  {
    hide Frame, PairBytes, Checksum;
    var f, n := Frame(content), |content| + 6;
    FrameParts(content);
    ReadPair(f[1], f[2], |content| + 4);
    ReadPair(f[n - 3], f[n - 2], Checksum(content));
  }

  lemma FrameIsAccepted(content: seq<byte>)
    requires 10 <= |content| <= 1494
    ensures Decode(Frame(content)) == Ok(Unpack(Frame(content)))
  {
    var f, n := Frame(content), |content| + 6;
    FrameParts(content);
    FrameFields(content);
  }

  lemma AcceptedIsFrame(data: seq<byte>)
    requires data != [] && Decode(data).Ok?
    ensures data == Frame(data[3..|data| - 3])
  {
    var n := |data|;
    Parts(data, n);
    BytesOfPair(data[1], data[2]);
    BytesOfPair(data[n - 3], data[n - 2]);
  }

  /** Accepted byte strings are exactly the frames of contents of 10 to 1494 bytes. */
  lemma AcceptedAreFrames(data: seq<byte>)
    requires data != []
    ensures Decode(data).Ok? <==> 16 <= |data| <= 1500 && data == Frame(data[3..|data| - 3])
  {
    if 16 <= |data| <= 1500 && data == Frame(data[3..|data| - 3]) {
      FrameIsAccepted(data[3..|data| - 3]);
    } else if Decode(data).Ok? {
      AcceptedIsFrame(data);
    }
  }

  function MessageOnWire(m: MessageSet): MessageSet
    requires Scalar(m)
  {
    MessageSet(m.number, Number(NumberOnWire(MessageTypeOf(m.number), m.payload.value)))
  }

  function MessagesOnWire(ms: seq<MessageSet>): (r: seq<MessageSet>)
    requires AllScalar(ms)
  {
    if ms == [] then [] else [MessageOnWire(ms[0])] + MessagesOnWire(ms[1..])
  }

  /** What a receiver makes of a packet: fields and numbers reduced to their widths, the message count to a byte. */
  function PacketOnWire(p: Packet): Packet
    requires Scalars(p)
  {
    Packet(p.sa, p.da, CommandOnWire(p.command),
           Messages(MessagesOnWire(p.body.sets[..|p.body.sets| % 256])))
  }

  predicate MessageFits(m: MessageSet) {
    Scalar(m) && NumberFits(MessageTypeOf(m.number), m.payload.value)
  }

  predicate WellFormed(p: Packet) {
    && Scalars(p) && CommandFits(p.command) && |p.body.sets| < 256
    && (forall i :: 0 <= i < |p.body.sets| ==> MessageFits(p.body.sets[i]))
    && |Encode(p)| <= 1500
  }

  /** Dropping the first part of what a byte string continues with. */
  lemma Tail(data: seq<byte>, at: nat, a: seq<byte>, b: seq<byte>)
    requires at <= |data| && data[at..] == a + b
    ensures at + |a| <= |data| && data[at + |a|..] == b
    ensures forall k :: 0 <= k < |a| ==> data[at + k] == a[k]
  {
    assert |data| == at + |a| + |b|;
    assert data[at + |a|..] == data[at..][|a|..] == b;
    forall k | 0 <= k < |a| ensures data[at + k] == a[k] {
      assert data[at + k] == data[at..][k];
    }
  }

  lemma MessageRoundTrip(m: MessageSet, data: seq<byte>, index: nat, capacity: nat, more: seq<byte>)
    requires Scalar(m) && index <= |data| && data[index..] == MessageBytes(m) + more
    ensures MessageAt(data, index, capacity) == Piece(MessageOnWire(m), |MessageBytes(m)|)
  {
    var t, value := MessageTypeOf(m.number), m.payload.value;
    var number, bs := PairBytes(m.number), NumberBytes(t, value);
    assert MessageBytes(m) + more == number + (bs + more);
    Tail(data, index, number, bs + more);
    Tail(data, index + 2, bs, more);
    assert data[index + 0] == number[0] && data[index + 1] == number[1];
    PairOfBytes(m.number);
    assert Pair(data[index], data[index + 1]) == m.number;
    assert |MessageBytes(m)| == ScalarSize(t) && index + ScalarSize(t) <= |data|;
    NumberRoundTrip(t, value, data, index);
  }

  lemma {:induction false} BodyStep(data: seq<byte>, cursor: nat, capacity: nat, n: nat, m: MessageSet, size: nat, ms: seq<MessageSet>)
    requires n > 0 && MessageAt(data, cursor, capacity) == Piece(m, size)
    requires BodyAt(data, cursor + size, capacity, n - 1) == Messages(ms)
    ensures BodyAt(data, cursor, capacity, n) == Messages([m] + ms)
  {
  }

  lemma {:induction false} BodyRoundTrip(ms: seq<MessageSet>, data: seq<byte>, cursor: nat, capacity: nat, n: nat, more: seq<byte>)
    requires n <= |ms| && AllScalar(ms) && cursor <= |data| && data[cursor..] == AllMessageBytes(ms) + more
    ensures BodyAt(data, cursor, capacity, n) == Messages(MessagesOnWire(ms[..n]))
    decreases n
  {
    hide MessageAt, MessageOnWire, MessageBytes;
    if n > 0 {
      var first, rest := MessageBytes(ms[0]), AllMessageBytes(ms[1..]) + more;
      assert AllMessageBytes(ms) + more == first + rest;
      Tail(data, cursor, first, rest);
      MessageRoundTrip(ms[0], data, cursor, capacity, rest);
      BodyRoundTrip(ms[1..], data, cursor + |first|, capacity, n - 1, more);
      var read := MessagesOnWire(ms[1..][..n - 1]);
      assert ms[..n][1..] == ms[1..][..n - 1];
      BodyStep(data, cursor, capacity, n, MessageOnWire(ms[0]), |first|, read);
    }
  }

  lemma HeaderAt(data: seq<byte>, sa: Address, da: Address, c: Command, count: byte, more: seq<byte>)
    requires |data| >= 3
    requires data[3..] == AddressBytes(sa) + AddressBytes(da) + CommandBytes(c) + [count] + more
    ensures |data| >= 13 && data[13..] == more
    ensures AddressAt(data, 3) == sa && AddressAt(data, 6) == da && data[12] == count
    ensures CommandAt(data, 9) == CommandOnWire(c)
  {
    var a, b, d := AddressBytes(sa), AddressBytes(da), CommandBytes(c);
    assert data[3..] == a + (b + (d + ([count] + more)));
    Tail(data, 3, a, b + (d + ([count] + more)));
    assert data[3 + 0] == a[0] && data[3 + 1] == a[1] && data[3 + 2] == a[2];
    Tail(data, 6, b, d + ([count] + more));
    assert data[6 + 0] == b[0] && data[6 + 1] == b[1] && data[6 + 2] == b[2];
    Tail(data, 9, d, [count] + more);
    assert data[9 + 0] == d[0] && data[9 + 1] == d[1] && data[9 + 2] == d[2];
    Tail(data, 12, [count], more);
    assert data[12 + 0] == count;
    CommandRoundTrip(c);
  }

  lemma FrameTail(content: seq<byte>)
    ensures Frame(content)[3..] == content + (PairBytes(Checksum(content)) + [END])
  {
    hide Checksum, PairBytes;
    var trailer := PairBytes(Checksum(content)) + [END];
    var head := [START] + PairBytes(|content| + 4);
    assert Frame(content) == head + (content + trailer) && |head| == 3;
  }

  lemma UnpackFrame(p: Packet)
    requires Scalars(p) && |Encode(p)| <= 1500
    ensures Unpack(Encode(p)) == PacketOnWire(p)
  {
    hide AddressBytes, CommandBytes, CommandOnWire, AllMessageBytes, MessagesOnWire, BodyAt, Frame, Checksum, PairBytes;
    var f, body := Encode(p), AllMessageBytes(p.body.sets);
    var trailer := PairBytes(Checksum(Content(p))) + [END];
    FrameTail(Content(p));
    HeaderAt(f, p.sa, p.da, p.command, Byte(|p.body.sets|), body + trailer);
    assert f[12] <= |p.body.sets|;
    BodyRoundTrip(p.body.sets, f, 13, f[12], f[12], trailer);
  }

  /** Decoding an encoded packet of scalar messages, for every packet. */
  lemma EncodeThenDecode(p: Packet)
    requires Scalars(p)
    ensures Decode(Encode(p)) == if |Encode(p)| <= 1500 then Ok(PacketOnWire(p)) else UnexpectedSize
  {
    FrameParts(Content(p));
    if |Encode(p)| <= 1500 {
      FrameIsAccepted(Content(p));
      UnpackFrame(p);
    }
  }

  lemma {:induction false} MessagesOnWireFit(ms: seq<MessageSet>)
    requires AllScalar(ms)
    ensures |MessagesOnWire(ms)| == |ms|
    ensures MessagesOnWire(ms) == ms <==> forall i :: 0 <= i < |ms| ==> MessageFits(ms[i])
  {
    if ms != [] {
      var rest := MessagesOnWire(ms[1..]);
      MessagesOnWireFit(ms[1..]);
      NumberOnWireFits(MessageTypeOf(ms[0].number), ms[0].payload.value);
      assert forall i :: 0 <= i < |ms| - 1 ==> ms[1..][i] == ms[i + 1];
      assert MessagesOnWire(ms)[1..] == rest && MessagesOnWire(ms)[0] == MessageOnWire(ms[0]);
      assert MessagesOnWire(ms) == ms <==> MessageOnWire(ms[0]) == ms[0] && rest == ms[1..];
      if forall i :: 0 <= i < |ms[1..]| ==> MessageFits(ms[1..][i]) {
        assert forall i :: 1 <= i < |ms| ==> ms[i] == ms[1..][i - 1] && MessageFits(ms[i]);
      }
    }
  }

  /** A packet of scalar messages survives encoding and decoding exactly when it is well formed. */
  lemma RoundTrip(p: Packet)
    requires Scalars(p)
    ensures Decode(Encode(p)) == Ok(p) <==> WellFormed(p)
  {
    hide Decode, Encode, CommandOnWire, MessageFits;
    var ms := p.body.sets;
    var cut := ms[..|ms| % 256];
    EncodeThenDecode(p);
    MessagesOnWireFit(cut);
    if |ms| < 256 {
      assert cut == ms;
    } else {
      assert |MessagesOnWire(cut)| < |ms|;
    }
  }

  /** Well-formed packets have different frames. */
  lemma EncodeInjective(p: Packet, q: Packet)
    requires WellFormed(p) && WellFormed(q) && Encode(p) == Encode(q)
    ensures p == q
  {
    RoundTrip(p);
    RoundTrip(q);
  }

  lemma LongDigits(a: word, b: word)
    ensures var v := Signed32(a * 65536 + b); v / 65536 % 65536 == a && v % 65536 == b
  {
  }

  lemma PairBytesModulo(n: int)
    ensures PairBytes(n) == PairBytes(n % 65536)
  {
    var q, r := n / 65536, n % 65536;
    assert n / 256 == 256 * q + r / 256;
    assert n == 256 * (256 * q) + r;
  }

  lemma LongReverse(b0: byte, b1: byte, b2: byte, b3: byte)
    ensures var v := Signed32(Pair(b0, b1) * 65536 + Pair(b2, b3));
            PairBytes(v / 65536) + PairBytes(v) == [b0, b1, b2, b3]
  {
    var a: int, b: int := Pair(b0, b1), Pair(b2, b3);
    var v := Signed32(a * 65536 + b);
    LongDigits(a, b);
    PairBytesModulo(v / 65536);
    PairBytesModulo(v);
    BytesOfPair(b0, b1);
    BytesOfPair(b2, b3);
  }

  lemma NumberReverse(t: MessageType, data: seq<byte>, index: nat)
    requires t != Structure && index + ScalarSize(t) <= |data|
    ensures NumberBytes(t, NumberAt(t, data, index)) == data[index + 2..index + ScalarSize(t)]
    ensures NumberFits(t, NumberAt(t, data, index))
  {
    hide PairBytes, Byte;
    if t == LongVariable {
      LongReverse(data[index + 2], data[index + 3], data[index + 4], data[index + 5]);
    } else if t == Variable {
      BytesOfPair(data[index + 2], data[index + 3]);
    } else {
      ByteOfByte(data[index + 2]);
    }
  }

  lemma ByteOfByte(b: byte)
    ensures Byte(b) == b
  {
  }

  lemma MessageReverse(data: seq<byte>, index: nat, capacity: nat, m: MessageSet, size: nat)
    requires MessageAt(data, index, capacity) == Piece(m, size) && Scalar(m)
    ensures MessageFits(m) && index + size <= |data| && size == |MessageBytes(m)|
    ensures data[index..] == MessageBytes(m) + data[index + size..]
  {
    BytesOfPair(data[index], data[index + 1]);
    var t := MessageTypeOf(Pair(data[index], data[index + 1]));
    NumberReverse(t, data, index);
    assert data[index..] == [data[index], data[index + 1]]
                            + data[index + 2..index + ScalarSize(t)] + data[index + ScalarSize(t)..];
  }

  /** `ms` is what the bytes of `data` from `cursor` on begin with. */
  predicate Spells(data: seq<byte>, cursor: nat, ms: seq<MessageSet>) {
    && AllScalar(ms) && (forall i :: 0 <= i < |ms| ==> MessageFits(ms[i]))
    && cursor + |AllMessageBytes(ms)| <= |data|
    && data[cursor..] == AllMessageBytes(ms) + data[cursor + |AllMessageBytes(ms)|..]
  }

  lemma {:induction false} SpellsNothing(data: seq<byte>, cursor: nat)
    requires cursor <= |data|
    ensures Spells(data, cursor, [])
  {
    assert data[cursor..] == [] + data[cursor..];
  }

  lemma {:induction false} SpellsMore(data: seq<byte>, cursor: nat, m: MessageSet, size: nat, rest: seq<MessageSet>)
    requires MessageFits(m) && cursor + size <= |data| && size == |MessageBytes(m)|
    requires data[cursor..] == MessageBytes(m) + data[cursor + size..]
    requires Spells(data, cursor + size, rest)
    ensures Spells(data, cursor, [m] + rest)
  {
    var ms := [m] + rest;
    assert ms[1..] == rest;
    forall i | 0 <= i < |ms| ensures Scalar(ms[i]) && MessageFits(ms[i]) {
      assert i > 0 ==> ms[i] == rest[i - 1];
    }
  }

  lemma {:induction false} BodyUnroll(data: seq<byte>, cursor: nat, capacity: nat, n: nat)
      returns (m: MessageSet, size: nat, rest: seq<MessageSet>)
    requires n > 0 && BodyAt(data, cursor, capacity, n).Messages?
    ensures MessageAt(data, cursor, capacity) == Piece(m, size)
    ensures BodyAt(data, cursor + size, capacity, n - 1) == Messages(rest)
    ensures BodyAt(data, cursor, capacity, n) == Messages([m] + rest)
  {
    m, size := MessageAt(data, cursor, capacity).message, MessageAt(data, cursor, capacity).size;
    rest := BodyAt(data, cursor + size, capacity, n - 1).sets;
  }

  lemma AllScalarSplit(m: MessageSet, rest: seq<MessageSet>)
    requires AllScalar([m] + rest)
    ensures Scalar(m) && AllScalar(rest)
  {
    assert ([m] + rest)[0] == m;
    assert forall i :: 0 <= i < |rest| ==> ([m] + rest)[i + 1] == rest[i];
  }

  lemma {:induction false} BodyReverse(data: seq<byte>, cursor: nat, capacity: nat, n: nat, ms: seq<MessageSet>)
    requires cursor <= |data| && BodyAt(data, cursor, capacity, n) == Messages(ms) && AllScalar(ms)
    ensures |ms| == n && Spells(data, cursor, ms)
    decreases n
  {
    hide MessageAt, MessageFits, Spells, MessageBytes;
    if n == 0 {
      SpellsNothing(data, cursor);
    } else {
      var m, size, rest := BodyUnroll(data, cursor, capacity, n);
      assert ms == [m] + rest;
      AllScalarSplit(m, rest);
      MessageReverse(data, cursor, capacity, m, size);
      BodyReverse(data, cursor + size, capacity, n - 1, rest);
      SpellsMore(data, cursor, m, size, rest);
    }
  }

  lemma FrameInjective(a: seq<byte>, b: seq<byte>)
    ensures Frame(a) == Frame(b) <==> a == b
  {
    FrameParts(a);
    FrameParts(b);
  }

  lemma MiddlePart(a: seq<byte>, b: seq<byte>, b': seq<byte>, c: seq<byte>)
    requires |b| == |b'|
    ensures a + b + c == a + b' + c <==> b == b'
  {
    assert (a + b + c)[|a|..|a| + |b|] == b && (a + b' + c)[|a|..|a| + |b|] == b';
  }

  lemma ContentParts(data: seq<byte>, n: nat)
    requires |data| == n >= 16
    ensures data[3..n - 3] == (data[3..6] + data[6..9]) + data[9..12] + ([data[12]] + data[13..n - 3])
  {
  }

  lemma ContentReverse(data: seq<byte>, n: nat, p: Packet)
    requires |data| == n >= 16 && Scalars(p) && Spells(data, 13, p.body.sets) && |p.body.sets| == data[12]
    requires p.sa == AddressAt(data, 3) && p.da == AddressAt(data, 6) && p.command == CommandAt(data, 9)
    ensures Content(p) == data[3..n - 3] <==> data[9] % 8 == 0 && |AllMessageBytes(p.body.sets)| + 16 == n
  {
    hide AllMessageBytes, CommandBytes, CommandAt, AddressBytes, AddressAt, MessageFits;
    var body, head := AllMessageBytes(p.body.sets), AddressBytes(p.sa) + AddressBytes(p.da);
    CommandReverse(data, 9);
    AddressReverse(data, 3);
    AddressReverse(data, 6);
    var tail := [data[12]] + body;
    assert Content(p) == head + CommandBytes(p.command) + tail;
    if |body| + 16 == n {
      ContentParts(data, n);
      assert body == data[13..][..|body|] == data[13..n - 3];
      MiddlePart(head, CommandBytes(p.command), data[9..12], tail);
    }
  }

  lemma AddressReverse(data: seq<byte>, index: nat)
    requires index + 3 <= |data|
    ensures AddressBytes(AddressAt(data, index)) == data[index..index + 3]
  {
  }

  /**
   An accepted frame of scalar messages is reproduced byte for byte exactly when it is canonical: the
   messages fill the body and the three unused bits of the first command byte are zero.
   */
  lemma DecodeThenEncode(data: seq<byte>)
    requires data != [] && Decode(data).Ok? && Scalars(Decode(data).packet)
    ensures var p := Decode(data).packet;
            Encode(p) == data <==> data[9] % 8 == 0 && |AllMessageBytes(p.body.sets)| + 16 == |data|
  {
    var p, n := Decode(data).packet, |data|;
    AcceptedIsFrame(data);
    FrameInjective(Content(p), data[3..n - 3]);
    BodyReverse(data, 13, data[12], data[12], p.body.sets);
    ContentReverse(data, n, p);
  }

  lemma CommandAtFits(data: seq<byte>, index: nat)
    requires index + 3 <= |data|
    ensures CommandFits(CommandAt(data, index))
  {
  }

  /** An accepted frame of scalar messages without stray bits or bytes. */
  predicate Canonical(data: seq<byte>) {
    && data != [] && Decode(data).Ok? && Scalars(Decode(data).packet)
    && data[9] % 8 == 0 && |AllMessageBytes(Decode(data).packet.body.sets)| + 16 == |data|
  }

  /** Canonical frames are exactly the encodings of well-formed packets: encode and decode are inverse bijections. */
  lemma CanonicalFrames(data: seq<byte>)
    ensures Canonical(data) <==> exists p :: WellFormed(p) && Encode(p) == data
  {
    hide Encode, MessageFits, CommandFits, AllMessageBytes;
    if Canonical(data) {
      var p := Decode(data).packet;
      DecodeThenEncode(data);
      BodyReverse(data, 13, data[12], data[12], p.body.sets);
      CommandAtFits(data, 9);
      assert WellFormed(p) && Encode(p) == data;
    }
    hide Decode;
    if p :| WellFormed(p) && Encode(p) == data {
      RoundTrip(p);
      DecodeThenEncode(data);
    }
  }

  // ---------------------------------------------------------------- the methods of the sources

  /** `Packet::encode`: bytes are pushed one field after the other and the length is patched in afterwards. */
  method EncodePacket(p: Packet) returns (data: seq<byte>)
    requires Encodable(p)
    ensures data == Encode(p)
  {
    hide Checksum, MessageBytes, AddressBytes, CommandBytes;
    var sets := p.body.sets;
    data := [START, 0, 0];
    data := data + AddressBytes(p.sa);
    data := data + AddressBytes(p.da);
    data := data + CommandBytes(p.command);
    data := data + [Byte(|sets|)];
    var i := 0;
    while i < |sets|
      invariant 0 <= i <= |sets|
      invariant data + AllMessageBytes(sets[i..]) == [START, 0, 0] + Content(p)
    {
      assert sets[i..][1..] == sets[i + 1..];
      data := data + MessageBytes(sets[i]);
      i := i + 1;
    }
    ghost var content := Content(p);
    PatchLength(data, content);
    var endPosition := |data| + 1;
    data := data[1 := Byte(endPosition / 256)];
    data := data[2 := Byte(endPosition)];
    var checksum := Crc16(data, 3, endPosition - 4);
    data := data + PairBytes(checksum);
    data := data + [END];
  }

  lemma PatchLength(data: seq<byte>, content: seq<byte>)
    requires data + [] == [START, 0, 0] + content
    ensures var patched := data[1 := Byte((|data| + 1) / 256)][2 := Byte(|data| + 1)];
            && patched == [START] + PairBytes(|content| + 4) + content
            && patched[3..|data|] == content
  {
    assert data == [START, 0, 0] + content;
    var patched := data[1 := Byte((|data| + 1) / 256)][2 := Byte(|data| + 1)];
    assert patched[3..] == data[3..] == content;
    assert patched == patched[..3] + patched[3..];
    assert patched[..3] == [START] + PairBytes(|content| + 4);
  }

  function Prepend(ms: seq<MessageSet>, b: Body): Body {
    match b
    case Messages(rest) => Messages(ms + rest)
    case PastEnd(_) => b
  }

  lemma PrependTwice(ms: seq<MessageSet>, m: MessageSet, b: Body)
    ensures Prepend(ms, Prepend([m], b)) == Prepend(ms + [m], b)
  {
    if b.Messages? {
      assert ms + ([m] + b.sets) == (ms + [m]) + b.sets;
    }
  }

  /** The message loop of `Packet::decode`: a cursor that moves over `capacity` messages. */
  method DecodeMessages(data: seq<byte>, start: nat, capacity: nat) returns (body: Body)
    ensures body == BodyAt(data, start, capacity, capacity)
  {
    hide MessageAt;
    var cursor: nat := start;
    var messages := [];
    var i := 1;
    while i <= capacity
      invariant 1 <= i <= capacity + 1
      invariant BodyAt(data, start, capacity, capacity)
             == Prepend(messages, BodyAt(data, cursor, capacity, capacity + 1 - i))
    {
      var piece := MessageAt(data, cursor, capacity);
      if piece.Beyond? {
        return PastEnd(data);
      }
      ghost var rest := BodyAt(data, cursor + piece.size, capacity, capacity - i);
      assert BodyAt(data, cursor, capacity, capacity + 1 - i) == Prepend([piece.message], rest);
      PrependTwice(messages, piece.message, rest);
      messages := messages + [piece.message];
      cursor := cursor + piece.size;
      i := i + 1;
    }
    return Messages(messages);
  }

  /** `Packet::decode`: the checks, then the fields one after the other. */
  method DecodePacket(data: seq<byte>) returns (result: DecodeResult)
    requires data != []
    ensures result == Decode(data)
  {
    hide Checksum, BodyAt, AddressAt, CommandAt;
    var n := |data|;
    if data[0] != START {
      return InvalidStartByte;
    }
    if n < 16 || n > 1500 {
      return UnexpectedSize;
    }
    var size: int := Pair(data[1], data[2]);
    if size + 2 != n {
      return SizeDidNotMatch;
    }
    if data[n - 1] != END {
      return InvalidEndByte;
    }
    assert 3 + (size - 4) == n - 3;
    var actual := Crc16(data, 3, size - 4);
    var expected := Pair(data[n - 3], data[n - 2]);
    if expected != actual {
      return CrcError;
    }
    var cursor := 3;
    var sa := AddressAt(data, cursor);
    cursor := cursor + 3;
    var da := AddressAt(data, cursor);
    cursor := cursor + 3;
    var command := CommandAt(data, cursor);
    cursor := cursor + 3;
    var capacity := data[cursor];
    cursor := cursor + 1;
    var body := DecodeMessages(data, cursor, capacity);
    return Ok(Packet(sa, da, command, body));
  }
}
