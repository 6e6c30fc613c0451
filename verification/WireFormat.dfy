/**
 The bytes on the line, spelled out: which message type a number has, how its value is written and read, where
 the fields of a frame are, when a frame is refused, and which packets the stream decoder delivers.
 */
module WireFormat {
  import opened Bytes
  import opened Crc
  import opened Packets
  import opened Stream

  // ---------------------------------------------------------------- messages

  /** The two type bits of a message number. */
  predicate TypeBits(n: word, low: int, high: int) {
    n / 512 % 2 == low && n / 1024 % 2 == high
  }

  lemma TypeOfBits(n: word)
    ensures TypeBits(n, 0, 0) ==> MessageTypeOf(n) == Enum
    ensures TypeBits(n, 1, 0) ==> MessageTypeOf(n) == Variable
    ensures TypeBits(n, 0, 1) ==> MessageTypeOf(n) == LongVariable
    ensures TypeBits(n, 1, 1) ==> MessageTypeOf(n) == Structure
  {
    var q: nat := n / 512;
    assert n / 1024 == q / 2;
    assert q % 4 == 2 * (q / 2 % 2) + q % 2;
  }

  lemma BytesOfValue(v: int)
    ensures NumberBytes(Enum, v) == [v % 256] && NumberBytes(Variable, v) == [v / 256 % 256, v % 256]
    ensures NumberBytes(LongVariable, v) == [v / 0x100_0000 % 256, v / 65536 % 256, v / 256 % 256, v % 256]
  {
    assert v / 65536 / 256 == v / 0x100_0000;
  }

  /** A number is followed by its value in one, two or four bytes, most significant first, as its type bits say; with both set it carries no value. */
  lemma ValueIsWritten(n: word, v: int)
    ensures TypeBits(n, 0, 0) || TypeBits(n, 1, 0) || TypeBits(n, 0, 1) <==> Typed(MessageSet(n, Number(v)))
    ensures TypeBits(n, 0, 0) ==> MessageBytes(MessageSet(n, Number(v))) == [n / 256, n % 256] + [v % 256]
    ensures TypeBits(n, 1, 0) ==> MessageBytes(MessageSet(n, Number(v))) == [n / 256, n % 256] + [v / 256 % 256, v % 256]
    ensures var value := [v / 0x100_0000 % 256, v / 65536 % 256, v / 256 % 256, v % 256];
            TypeBits(n, 0, 1) ==> MessageBytes(MessageSet(n, Number(v))) == [n / 256, n % 256] + value
  {
    assert TypeBits(n, 0, 0) || TypeBits(n, 1, 0) || TypeBits(n, 0, 1) || TypeBits(n, 1, 1);
    hide MessageTypeOf, TypeBits, NumberBytes, PairBytes;
    TypeOfBits(n);
    BytesOfValue(v);
    NumberHead(n);
  }

  lemma NumberHead(n: word)
    ensures PairBytes(n) == [n / 256, n % 256]
  {
    assert n / 256 < 256;
  }

  /** The bytes of a buffer follow the number as they are. */
  lemma BufferIsWritten(n: word, bytes: seq<byte>)
    requires TypeBits(n, 1, 1)
    ensures var m := MessageSet(n, Buffer(bytes)); Typed(m) && MessageBytes(m) == [n / 256, n % 256] + bytes
  {
    TypeOfBits(n);
    NumberHead(n);
    hide PairBytes;
  }

  /** Messages follow each other without gaps. */
  lemma {:induction false} MessagesFollow(a: seq<MessageSet>, b: seq<MessageSet>)
    requires AllTyped(a) && AllTyped(b)
    ensures AllTyped(a + b) && AllMessageBytes(a + b) == AllMessageBytes(a) + AllMessageBytes(b)
  {
    hide MessageBytes;
    assert AllTyped(a + b) by {
      forall i | 0 <= i < |a + b| ensures Typed((a + b)[i]) {
        assert i >= |a| ==> (a + b)[i] == b[i - |a|];
      }
    }
    if a == [] {
      assert a + b == b;
    } else {
      assert (a + b)[1..] == a[1..] + b;
      MessagesFollow(a[1..], b);
      assert MessageBytes(a[0]) + (AllMessageBytes(a[1..]) + AllMessageBytes(b))
          == (MessageBytes(a[0]) + AllMessageBytes(a[1..])) + AllMessageBytes(b);
    }
  }

  lemma SingleMessage(m: MessageSet)
    requires Typed(m)
    ensures AllMessageBytes([m]) == MessageBytes(m)
  {
    hide MessageBytes;
    assert [m][1..] == [];
    assert MessageBytes(m) + [] == MessageBytes(m);
  }

  /** The number in two bytes, most significant first. */
  function TwoBytes(a: int, b: int): int {
    256 * a + b
  }

  /** The two's complement number in four bytes, most significant first. */
  function FourBytes(a: int, b: int, c: int, d: int): int {
    0x100_0000 * a + 65536 * b + 256 * c + d - (if a < 128 then 0 else 0x1_0000_0000)
  }

  lemma FourBytesAreSigned(a: byte, b: byte, c: byte, d: byte)
    ensures Signed32(Pair(a, b) * 65536 + Pair(c, d)) == FourBytes(a, b, c, d)
  {
  }

  lemma ScalarIsRead(f: seq<byte>, i: nat, capacity: nat, t: MessageType)
    requires i + 2 <= |f| && MessageTypeOf(TwoBytes(f[i], f[i + 1])) == t != Structure
    ensures MessageAt(f, i, capacity) ==
      if i + ScalarSize(t) > |f| then Beyond
      else Piece(MessageSet(TwoBytes(f[i], f[i + 1]), Number(NumberAt(t, f, i))), ScalarSize(t))
  {
    assert Pair(f[i], f[i + 1]) == TwoBytes(f[i], f[i + 1]);
    hide MessageTypeOf, NumberAt, ScalarSize, Pair, TwoBytes;
  }

  lemma NumbersRead(f: seq<byte>, i: nat)
    ensures ScalarSize(Enum) == 3 && ScalarSize(Variable) == 4 && ScalarSize(LongVariable) == 6
    ensures i + 3 <= |f| ==> NumberAt(Enum, f, i) == f[i + 2]
    ensures i + 4 <= |f| ==> NumberAt(Variable, f, i) == TwoBytes(f[i + 2], f[i + 3])
    ensures i + 6 <= |f| ==> NumberAt(LongVariable, f, i) == FourBytes(f[i + 2], f[i + 3], f[i + 4], f[i + 5])
  {
    hide FourBytes, Signed32;
    if i + 6 <= |f| {
      FourBytesAreSigned(f[i + 2], f[i + 3], f[i + 4], f[i + 5]);
    }
  }

  /** How a message is read: its value, and by how much the cursor moves; or that its bytes are not all there. */
  lemma ValueIsRead(f: seq<byte>, i: nat, capacity: nat)
    requires i + 2 <= |f|
    ensures var n, piece := TwoBytes(f[i], f[i + 1]), MessageAt(f, i, capacity);
            && (TypeBits(n, 0, 0) && i + 3 <= |f| ==> piece == Piece(MessageSet(n, Number(f[i + 2])), 3))
            && (TypeBits(n, 1, 0) && i + 4 <= |f| ==> piece == Piece(MessageSet(n, Number(TwoBytes(f[i + 2], f[i + 3]))), 4))
            && (TypeBits(n, 0, 1) && i + 6 <= |f| ==> piece == Piece(MessageSet(n, Number(FourBytes(f[i + 2], f[i + 3], f[i + 4], f[i + 5]))), 6))
            && (TypeBits(n, 0, 0) && |f| < i + 3 ==> piece == Beyond)
            && (TypeBits(n, 1, 0) && |f| < i + 4 ==> piece == Beyond)
            && (TypeBits(n, 0, 1) && |f| < i + 6 ==> piece == Beyond)
  {
    var n := TwoBytes(f[i], f[i + 1]);
    hide MessageTypeOf, TypeBits, FourBytes, MessageAt, NumberAt, ScalarSize;
    TypeOfBits(n);
    NumbersRead(f, i);
    if TypeBits(n, 0, 0) {
      ScalarIsRead(f, i, capacity, Enum);
    }
    if TypeBits(n, 1, 0) {
      ScalarIsRead(f, i, capacity, Variable);
    }
    if TypeBits(n, 0, 1) {
      ScalarIsRead(f, i, capacity, LongVariable);
    }
  }

  lemma OtherStructure(f: seq<byte>, i: nat, capacity: nat)
    requires i + 2 <= |f| && MessageTypeOf(TwoBytes(f[i], f[i + 1])) == Structure && capacity != 1
    ensures MessageAt(f, i, capacity) == Piece(MessageSet(TwoBytes(f[i], f[i + 1]), Buffer([])), 2)
  {
    assert Pair(f[i], f[i + 1]) == TwoBytes(f[i], f[i + 1]);
    hide MessageTypeOf, NumberAt, Pair, TwoBytes;
  }

  lemma OnlyStructure(f: seq<byte>, i: nat, size: nat, length: nat)
    requires i + 2 <= |f| && MessageTypeOf(TwoBytes(f[i], f[i + 1])) == Structure
    requires size == (|f| - i - 3) % 65536 && length == (size - 2) % 256 <= |f|
    ensures MessageAt(f, i, 1) == Piece(MessageSet(TwoBytes(f[i], f[i + 1]), Buffer(f[..length])), size)
  {
    assert Pair(f[i], f[i + 1]) == TwoBytes(f[i], f[i + 1]);
    hide MessageTypeOf, NumberAt, Pair, TwoBytes;
  }

  /**
   A structure is empty unless it is the only message. Then it takes the rest of the frame up to the checksum, and
   its buffer the bytes from the start of the frame, as many as remain behind the number, modulo 256.
   */
  lemma StructureIsRead(f: seq<byte>, i: nat, capacity: nat)
    requires i + 5 <= |f| <= 1500 && TypeBits(TwoBytes(f[i], f[i + 1]), 1, 1)
    ensures var n, size := TwoBytes(f[i], f[i + 1]), |f| - i - 3;
            MessageAt(f, i, capacity) ==
              if capacity == 1 then Piece(MessageSet(n, Buffer(f[..(size - 2) % 256])), size)
              else Piece(MessageSet(n, Buffer([])), 2)
  {
    hide MessageTypeOf, TypeBits, MessageAt;
    TypeOfBits(TwoBytes(f[i], f[i + 1]));
    if capacity == 1 {
      var size := |f| - i - 3;
      Small(size);
      Small(size - 2);
      OnlyStructure(f, i, size, (size - 2) % 256);
    } else {
      OtherStructure(f, i, capacity);
    }
  }

  lemma Small(n: nat)
    ensures n < 65536 ==> n % 65536 == n
    ensures n % 256 <= n
  {
  }

  // ---------------------------------------------------------------- frames

  /** A command whose fields fit: three bytes, the fields from the top bit down. */
  lemma CommandLayout(c: Command)
    requires c.protocolVersion < 4 && c.retryCount < 4 && c.packetType < 16 && c.dataType < 16
    ensures CommandBytes(c)[0] == (if c.packetInformation then 128 else 0) + 32 * (c.protocolVersion as int) + 8 * (c.retryCount as int)
    ensures CommandBytes(c)[1] == 16 * (c.packetType as int) + c.dataType && CommandBytes(c)[2] == c.packetNumber
  {
    hide Byte;
    SmallByte((if c.packetInformation then 128 else 0) + 32 * (c.protocolVersion as int) + 8 * (c.retryCount as int));
    SmallByte(16 * (c.packetType as int) + c.dataType);
  }

  lemma SmallByte(n: int)
    ensures 0 <= n < 256 ==> Byte(n) == n
  {
  }

  /** Where everything is in an encoded packet. */
  lemma FrameLayout(p: Packet)
    requires Encodable(p)
    ensures var f, n := Encode(p), |Encode(p)|;
            && n == 16 + |AllMessageBytes(p.body.sets)|
            && f[0] == 0x32 && f[n - 1] == 0x34 && f[1] == (n - 2) / 256 % 256 && f[2] == (n - 2) % 256
            && f[3] == p.sa.aClass && f[4] == p.sa.channel && f[5] == p.sa.address
            && f[6] == p.da.aClass && f[7] == p.da.channel && f[8] == p.da.address
            && f[9..12] == CommandBytes(p.command) && f[12] == |p.body.sets| % 256
            && f[13..n - 3] == AllMessageBytes(p.body.sets)
            && f[n - 3] == Checksum(f[3..n - 3]) / 256 && f[n - 2] == Checksum(f[3..n - 3]) % 256
  {
    hide Checksum, CommandBytes, AllMessageBytes, MessageBytes, PairBytes;
    var f, content, body := Encode(p), Content(p), AllMessageBytes(p.body.sets);
    var n := |content| + 6;
    FrameParts(content);
    assert content == AddressBytes(p.sa) + (AddressBytes(p.da) + (CommandBytes(p.command) + ([Byte(|p.body.sets|)] + body)));
    ContentFields(f, n, content, p.sa, p.da, CommandBytes(p.command), Byte(|p.body.sets|), body);
    PairIsHighLow(f[1], f[2], n - 2);
    PairIsHighLow(f[n - 3], f[n - 2], Checksum(content));
    NumberHead(Checksum(content));
  }

  lemma PairIsHighLow(hi: byte, lo: byte, n: nat)
    requires [hi, lo] == PairBytes(n)
    ensures hi == n / 256 % 256 && lo == n % 256
  {
    assert hi == [hi, lo][0] && lo == [hi, lo][1];
  }

  lemma ContentFields(f: seq<byte>, n: nat, content: seq<byte>, sa: Address, da: Address, command: seq<byte>, count: byte, body: seq<byte>)
    requires |f| == n >= 6 && f[3..n - 3] == content && |command| == 3
    requires content == AddressBytes(sa) + (AddressBytes(da) + (command + ([count] + body)))
    ensures n == 16 + |body| && f[12] == count && f[9..12] == command && f[13..n - 3] == body
    ensures f[3] == sa.aClass && f[4] == sa.channel && f[5] == sa.address
    ensures f[6] == da.aClass && f[7] == da.channel && f[8] == da.address
  {
    var a, b := AddressBytes(sa), AddressBytes(da);
    assert forall k :: 0 <= k < n - 6 ==> f[3 + k] == content[k];
    assert content[0] == a[0] && content[1] == a[1] && content[2] == a[2];
    assert content[3] == b[0] && content[4] == b[1] && content[5] == b[2];
    assert f[9..12] == content[6..9] == command;
    assert content[9] == count && f[13..n - 3] == content[10..] == body;
  }

  /** What an accepted frame says. */
  lemma FieldsOfFrame(f: seq<byte>)
    requires f != [] && Decode(f).Ok?
    ensures var p := Decode(f).packet;
            && p.sa.aClass == f[3] && p.sa.channel == f[4] && p.sa.address == f[5]
            && p.da.aClass == f[6] && p.da.channel == f[7] && p.da.address == f[8]
            && (p.command.packetInformation <==> f[9] >= 128)
            && p.command.protocolVersion == f[9] / 32 % 4 && p.command.retryCount == f[9] / 8 % 4
            && p.command.packetType == f[10] / 16 && p.command.dataType == f[10] % 16 && p.command.packetNumber == f[11]
            && p.body == BodyAt(f, 13, f[12], f[12])
  {
    hide Checksum, BodyAt;
    assert f[9] / 128 % 2 == 1 <==> f[9] >= 128;
  }

  /** The messages of a body: as many as the count says, each read where the one before ended. */
  lemma {:induction false} BodyIsRead(f: seq<byte>, cursor: nat, capacity: nat, count: nat)
    ensures count == 0 ==> BodyAt(f, cursor, capacity, count) == Messages([])
    ensures count > 0 && MessageAt(f, cursor, capacity).Beyond? ==> BodyAt(f, cursor, capacity, count).PastEnd?
    ensures count > 0 && MessageAt(f, cursor, capacity).Piece? ==>
      var piece := MessageAt(f, cursor, capacity);
      var rest := BodyAt(f, cursor + piece.size, capacity, count - 1);
      BodyAt(f, cursor, capacity, count) == if rest.Messages? then Messages([piece.message] + rest.sets) else PastEnd(f)
    ensures BodyAt(f, cursor, capacity, count).Messages? ==> |BodyAt(f, cursor, capacity, count).sets| == count
    decreases count
  {
    hide MessageAt;
    if count > 0 && MessageAt(f, cursor, capacity).Piece? {
      BodyIsRead(f, cursor + MessageAt(f, cursor, capacity).size, capacity, count - 1);
    }
  }

  /** The checks of `Packet::decode` in their order, each with its own result. */
  lemma DecodeOutcome(f: seq<byte>)
    requires f != []
    ensures var n, r := |f|, Decode(f);
            var start, size := f[0] == 0x32, 16 <= n <= 1500;
            var length := size && TwoBytes(f[1], f[2]) + 2 == n;
            var sum := size && TwoBytes(f[n - 3], f[n - 2]) == Checksum(f[3..n - 3]);
            && (r.InvalidStartByte? <==> !start)
            && (r.UnexpectedSize? <==> start && !size)
            && (r.SizeDidNotMatch? <==> start && size && !length)
            && (r.InvalidEndByte? <==> start && length && f[n - 1] != 0x34)
            && (r.CrcError? <==> start && length && f[n - 1] == 0x34 && !sum)
            && (r.Ok? <==> start && length && f[n - 1] == 0x34 && sum)
  {
    hide Checksum, Unpack;
  }

  // ---------------------------------------------------------------- the stream

  /** An accepted frame is dropped exactly if its data type is 6 (Ack) or 7 (Nack); otherwise its packet is delivered. */
  lemma DeliveredFrame(f: seq<byte>)
    requires f != []
    ensures !Decode(f).Ok? ==> Deliver(f) == []
    ensures Decode(f).Ok? ==> |f| >= 16 && Deliver(f) == if f[10] % 16 == 6 || f[10] % 16 == 7 then [] else [Decode(f).packet]
  {
    if Decode(f).Ok? {
      FieldsOfFrame(f);
      assert |f| >= 16;
    }
    hide Decode;
  }

  /** Packets are kept one by one, in order: those of data type 6 or 7 are left out, no others. */
  lemma {:induction false} KeptPackets(a: seq<Packet>, p: Packet, b: seq<Packet>)
    ensures Keep([]) == []
    ensures Keep(a + [p] + b) == Keep(a) + (if p.command.dataType == 6 || p.command.dataType == 7 then [] else [p]) + Keep(b)
    decreases |a|
  {
    var all := a + [p] + b;
    if a == [] {
      assert all[0] == p && all[1..] == b;
    } else {
      KeptPackets(a[1..], p, b);
      assert all[0] == a[0] && all[1..] == a[1..] + [p] + b;
      var first := if IsAck(a[0]) then [] else [a[0]];
      var middle := if p.command.dataType == 6 || p.command.dataType == 7 then [] else [p];
      assert first + (Keep(a[1..]) + middle + Keep(b)) == (first + Keep(a[1..])) + middle + Keep(b);
    }
  }

  lemma HeaderBytes(data: seq<byte>)
    requires |data| > 16
    ensures var length := TwoBytes(data[1], data[2]);
            && FrameLength(data) == length + 2
            && (Plausible(data) <==> data[0] == 0x32 && 16 <= length <= 1500)
  {
  }

  lemma NothingBefore(ps: seq<Packet>)
    ensures [] + ps == ps
  {
  }

  /** One step of the stream decoder, from the bytes. */
  lemma StreamStep(data: seq<byte>)
    ensures |data| <= 16 ==> Parse(data) == Parsed([], data)
    ensures |data| > 16 ==>
      var length := TwoBytes(data[1], data[2]);
      if data[0] != 0x32 || length < 16 || length > 1500 then Parse(data) == Parse(data[1..])
      else if |data| < length + 2 then Parse(data) == Parsed([], data)
      else
        && Parse(data).packets == Deliver(data[..length + 2]) + Parse(data[length + 2..]).packets
        && Parse(data).rest == Parse(data[length + 2..]).rest
  {
    hide Deliver, Parse, Plausible, FrameLength, TwoBytes;
    ParseShort(data);
    if |data| > 16 {
      HeaderBytes(data);
      ParseOnce(data, []);
      NothingBefore(Parse(data).packets);
      if Plausible(data) && FrameLength(data) <= |data| {
        NothingBefore(Deliver(data[..FrameLength(data)]));
      }
    }
  }
}
