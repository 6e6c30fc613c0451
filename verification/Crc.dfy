/**
 The frame checksum: `crc16` of src/nasa_protocol_helper.hpp on machine words, and its meaning as
 division by x^16 + x^12 + x^5 + 1 (the generating polynomial of ITU-T V.41, section 2).
 */
module Crc {
  import opened Bytes
  import opened Gf2

  const GENERATOR: Bits := [true, false, false, false, true, false, false, false, false,
                            false, false, true, false, false, false, false, true]

  lemma OddTerm(n: nat)
    ensures Odd([true] + Zeros(n))
  {
    OddAppend([true], Zeros(n));
    OddZero(Zeros(n));
  }

  lemma GeneratorShape()
    ensures IsGenerator(GENERATOR) && |GENERATOR| == 17 && !Odd(GENERATOR)
  {
    var a, b, c := [true] + Zeros(3), [true] + Zeros(6), [true] + Zeros(4);
    OddTerm(3);
    OddTerm(6);
    OddTerm(4);
    OddTerm(0);
    OddAppend(a, b);
    OddAppend(a + b, c);
    OddAppend(a + b + c, [true] + Zeros(0));
    assert GENERATOR == a + b + c + ([true] + Zeros(0));
  }

  const OCTET: nat := 8
  const WORD: nat := 16

  /** The low `k` binary digits of an integer, highest first. */
  function Digits(n: nat, k: nat): (r: Bits)
    ensures |r| == k
  {
    if k == 0 then [] else Digits(n / 2, k - 1) + [n % 2 == 1]
  }

  function Value(r: Bits): nat {
    if r == [] then 0 else 2 * Value(r[..|r| - 1]) + (if r[|r| - 1] then 1 else 0)
  }

  /** n * 2^k */
  function Shifted(n: nat, k: nat): nat {
    if k == 0 then n else 2 * Shifted(n, k - 1)
  }

  lemma {:induction false} DigitsOfValue(r: Bits)
    ensures Digits(Value(r), |r|) == r
    ensures Value(r) < Shifted(1, |r|)
  {
    if r != [] {
      DigitsOfValue(r[..|r| - 1]);
    }
  }

  lemma {:induction false} ValueOfDigits(n: nat, k: nat)
    requires n < Shifted(1, k)
    ensures Value(Digits(n, k)) == n
  {
    if k > 0 {
      ValueOfDigits(n / 2, k - 1);
      assert Digits(n, k)[..k - 1] == Digits(n / 2, k - 1);
    }
  }

  lemma {:induction false} DigitsSplit(hi: nat, lo: nat, j: nat, k: nat)
    requires lo < Shifted(1, k)
    ensures Digits(Shifted(hi, k) + lo, j + k) == Digits(hi, j) + Digits(lo, k)
  {
    if k > 0 {
      DigitsSplit(hi, lo / 2, j, k - 1);
      assert (Shifted(hi, k) + lo) / 2 == Shifted(hi, k - 1) + lo / 2;
    }
  }

  lemma {:induction false} ShiftedTwice(n: nat, j: nat, k: nat)
    ensures Shifted(Shifted(n, j), k) == Shifted(n, j + k)
  {
    if k > 0 {
      ShiftedTwice(n, j, k - 1);
    }
  }

  lemma ShiftedByte(n: nat)
    ensures Shifted(n, 8) == 256 * n
  {
    assert Shifted(n, 1) == 2 * n;
    assert Shifted(n, 2) == 4 * n;
    assert Shifted(n, 3) == 8 * n;
    assert Shifted(n, 4) == 16 * n;
    assert Shifted(n, 5) == 32 * n;
    assert Shifted(n, 6) == 64 * n;
    assert Shifted(n, 7) == 128 * n;
  }

  lemma Powers()
    ensures Shifted(1, 8) == 256 && Shifted(1, 16) == 65536
  {
    ShiftedByte(1);
    ShiftedByte(256);
    ShiftedTwice(1, 8, 8);
  }

  lemma PairDigits(hi: byte, lo: byte)
    ensures Digits(Pair(hi, lo), WORD) == Digits(hi, OCTET) + Digits(lo, OCTET)
  {
    hide Digits, Shifted;
    Powers();
    ShiftedByte(hi);
    assert Pair(hi, lo) == Shifted(hi, 8) + lo;
    DigitsSplit(hi, lo, 8, 8);
  }

  /** The bits of a byte string in transmission order. */
  function BitsOf(data: seq<byte>): (r: Bits)
    ensures |r| == 8 * |data|
  {
    seq(8 * |data|, k requires 0 <= k < 8 * |data| => Digits(data[k / 8], OCTET)[k % 8])
  }

  lemma BitsOfAppend(a: seq<byte>, b: seq<byte>)
    ensures BitsOf(a + b) == BitsOf(a) + BitsOf(b)
  {
    forall k | 0 <= k < 8 * |a + b| ensures BitsOf(a + b)[k] == (BitsOf(a) + BitsOf(b))[k] {
      if k >= 8 * |a| {
        assert (k - 8 * |a|) / 8 == k / 8 - |a| && (k - 8 * |a|) % 8 == k % 8;
      }
    }
  }

  lemma BitsOfPair(hi: byte, lo: byte)
    ensures BitsOf([hi, lo]) == Digits(Pair(hi, lo), WORD)
  {
    PairDigits(hi, lo);
  }

  lemma BitsInjective(a: seq<byte>, b: seq<byte>)
    requires BitsOf(a) == BitsOf(b)
    ensures a == b
  {
    hide Digits, BitsOf, Value, Shifted;
    assert |a| == |b|;
    Powers();
    forall i | 0 <= i < |a| ensures a[i] == b[i] {
      BitsOfByte(a, i);
      BitsOfByte(b, i);
      ValueOfDigits(a[i], OCTET);
      ValueOfDigits(b[i], OCTET);
    }
  }

  lemma BitsOfByte(a: seq<byte>, i: nat)
    requires i < |a|
    ensures BitsOf(a)[8 * i..8 * i + 8] == Digits(a[i], OCTET)
  {
    hide Digits;
    forall k | 0 <= k < 8 ensures BitsOf(a)[8 * i + k] == Digits(a[i], OCTET)[k] {
      assert (8 * i + k) / 8 == i && (8 * i + k) % 8 == k;
    }
  }

  /** The checksum of a byte string as an unsigned 16-bit number. */
  function Checksum(data: seq<byte>): word {
    var r := Remainder(GENERATOR, BitsOf(data));
    DigitsOfValue(r);
    Powers();
    Value(r)
  }

  lemma ChecksumOfRegister(data: seq<byte>, c: word)
    requires Digits(c, WORD) == Remainder(GENERATOR, BitsOf(data))
    ensures c == Checksum(data)
  {
    Powers();
    ValueOfDigits(c, WORD);
  }

  lemma ChecksumDigits(data: seq<byte>)
    ensures Digits(Checksum(data), WORD) == Remainder(GENERATOR, BitsOf(data))
  {
    DigitsOfValue(Remainder(GENERATOR, BitsOf(data)));
  }

  /** The checksum is the one polynomial R of degree below 16 with M(x) x^16 = Q(x) G(x) + R(x). */
  lemma ChecksumIsRemainder(data: seq<byte>, c: word)
    ensures c == Checksum(data) <==> exists q :: Divides(GENERATOR, BitsOf(data), q, Digits(c, WORD))
  {
    GeneratorShape();
    Powers();
    RemainderIsUnique(GENERATOR, BitsOf(data), Digits(c, WORD));
    ChecksumDigits(data);
    ValueOfDigits(c, WORD);
  }

  /** A byte string followed by two bytes is divisible exactly when they carry its checksum. */
  lemma CodewordCheck(data: seq<byte>, hi: byte, lo: byte)
    ensures IsZero(Remainder(GENERATOR, BitsOf(data + [hi, lo]))) <==> Pair(hi, lo) == Checksum(data)
  {
    GeneratorShape();
    Powers();
    BitsOfAppend(data, [hi, lo]);
    BitsOfPair(hi, lo);
    TrailerCheck(GENERATOR, BitsOf(data), BitsOf([hi, lo]));
    ChecksumDigits(data);
    ValueOfDigits(Pair(hi, lo), WORD);
  }

  /** The same on numbers: the checksum over a message and two trailer bytes is 0 iff they are its checksum. */
  lemma ChecksumOfCodeword(data: seq<byte>, hi: byte, lo: byte)
    ensures Checksum(data + [hi, lo]) == 0 <==> Pair(hi, lo) == Checksum(data)
  {
    CodewordCheck(data, hi, lo);
    ZeroValue(Remainder(GENERATOR, BitsOf(data + [hi, lo])));
  }

  lemma {:induction false} ZeroValue(r: Bits)
    ensures Value(r) == 0 <==> IsZero(r)
  {
    if r != [] {
      ZeroValue(r[..|r| - 1]);
    }
  }

  // ---------------------------------------------------------------- on machine words

  /** The operator `^` on `uint16_t`. */
  function BitXor(a: word, b: word): (c: word)
    ensures Digits(c, WORD) == Xor(Digits(a, WORD), Digits(b, WORD))
  {
    var r := Xor(Digits(a, WORD), Digits(b, WORD));
    DigitsOfValue(r);
    Powers();
    Value(r)
  }

  /** The operator `<< 1` on `uint16_t`. */
  function ShiftLeft(c: word): word {
    2 * c % 65536
  }

  lemma TopDigit(hi: nat, lo: nat)
    requires hi < 2 && lo < 32768
    ensures Digits(32768 * hi + lo, WORD) == [hi == 1] + Digits(lo, 15)
  {
    hide Digits, Shifted;
    Powers();
    ShiftedTwice(1, 15, 1);
    OneMoreShift(Shifted(1, 15));
    ZeroShift(15);
    assert Shifted(hi, 15) == 32768 * hi;
    DigitsSplit(hi, lo, 1, 15);
    OneDigit(hi);
  }

  lemma OneMoreShift(n: nat)
    ensures Shifted(n, 1) == 2 * n
  {
    assert Shifted(n, 0) == n;
  }

  lemma OneDigit(n: nat)
    requires n < 2
    ensures Digits(n, 1) == [n == 1]
  {
    assert Digits(n / 2, 0) == [];
  }

  lemma LowDigit(lo: nat)
    ensures Digits(2 * lo, WORD) == Digits(lo, 15) + [false]
  {
    assert 2 * lo / 2 == lo && 2 * lo % 2 == 0;
  }

  lemma DoubleMod(c: nat)
    ensures 2 * c % 65536 == 2 * (c % 32768)
    ensures 32768 * (c / 32768) + c % 32768 == c
  {
  }

  lemma DigitsOfShift(c: word)
    ensures Digits(ShiftLeft(c), WORD) == Digits(c, WORD)[1..] + [false]
    ensures Digits(c, WORD)[0] == (c >= 0x8000)
  {
    var hi, lo := c / 32768, c % 32768;
    TopDigit(hi, lo);
    LowDigit(lo);
    DoubleMod(c);
  }

  lemma {:induction false} ZeroShift(k: nat)
    ensures Shifted(0, k) == 0
    ensures Digits(0, k) == Zeros(k)
  {
    if k > 0 {
      ZeroShift(k - 1);
    }
  }

  lemma GeneratorWord()
    ensures Digits(0x1021, WORD) == GENERATOR[1..]
  {
    NibbleDigits();
    hide Digits, Shifted;
    DigitsSplit(1, 0, 4, 4);
    DigitsSplit(2, 1, 4, 4);
    PairDigits(0x10, 0x21);
  }

  lemma NibbleDigits()
    ensures Shifted(1, 4) == 16 && Shifted(2, 4) == 32
    ensures Digits(0, 4) == [false, false, false, false] && Digits(1, 4) == [false, false, false, true]
    ensures Digits(2, 4) == [false, false, true, false]
  {
    assert Shifted(1, 1) == 2 && Shifted(2, 1) == 4;
  }

  /** One round of the inner loop of `crc16`. */
  function ShiftRegister(c: word): word {
    if c >= 0x8000 then BitXor(ShiftLeft(c), 0x1021) else ShiftLeft(c)
  }

  lemma ShiftRegisterIsStep(c: word)
    ensures Digits(ShiftRegister(c), WORD) == Step(GENERATOR, Digits(c, WORD), false)
  {
    DigitsOfShift(c);
    GeneratorWord();
  }

  /** `(uint16_t)b << 8` */
  function Widen(b: byte): word {
    b * 256
  }

  lemma DigitsOfWiden(b: byte)
    ensures Digits(Widen(b), WORD) == Pad(Digits(b, OCTET), 16)
  {
    ShiftedByte(b);
    Powers();
    DigitsSplit(b, 0, 8, 8);
    ZeroShift(8);
  }

  lemma ByteStart(c: word, data: seq<byte>, b: byte)
    requires Digits(c, WORD) == Remainder(GENERATOR, BitsOf(data))
    ensures Waiting(GENERATOR, Digits(BitXor(c, Widen(b)), WORD), BitsOf(data), Digits(b, OCTET), 0)
  {
    DigitsOfWiden(b);
    WaitingStart(GENERATOR, BitsOf(data), Digits(b, OCTET));
  }

  lemma ByteDone(c: word, data: seq<byte>, b: byte)
    requires Waiting(GENERATOR, Digits(c, WORD), BitsOf(data), Digits(b, OCTET), 8)
    ensures Digits(c, WORD) == Remainder(GENERATOR, BitsOf(data + [b]))
  {
    WaitingDone(GENERATOR, Digits(c, WORD), BitsOf(data), Digits(b, OCTET));
    BitsOfAppend(data, [b]);
    assert BitsOf([b]) == Digits(b, OCTET);
  }

  lemma RegisterStart()
    ensures Digits(0, WORD) == Remainder(GENERATOR, BitsOf([]))
  {
    ZeroShift(WORD);
  }

  /** `crc16`: two nested loops over the bytes from `startIndex` on and over the bits of each. */
  method Crc16(data: seq<byte>, startIndex: nat, length: nat) returns (crc: word)
    requires startIndex + length <= |data|
    ensures crc == Checksum(data[startIndex..startIndex + length])
  {
    hide Remainder, BitsOf, Digits, Waiting, Checksum;
    crc := 0;
    RegisterStart();
    var index := startIndex;
    ghost var read: seq<byte> := [];
    while index < startIndex + length
      invariant startIndex <= index <= startIndex + length
      invariant read == data[startIndex..index]
      invariant Digits(crc, WORD) == Remainder(GENERATOR, BitsOf(read))
    {
      ghost var b := data[index];
      ghost var m, w := BitsOf(read), Digits(b, OCTET);
      ghost var read' := read + [b];
      assert read' == data[startIndex..index + 1];
      ByteStart(crc, read, b);
      crc := BitXor(crc, Widen(data[index]));
      var i := 0;
      while i < 8
        invariant 0 <= i <= 8
        invariant Waiting(GENERATOR, Digits(crc, WORD), m, w, i)
      {
        ShiftRegisterIsStep(crc);
        WaitingStep(GENERATOR, Digits(crc, WORD), m, w, i);
        if crc >= 0x8000 {
          crc := BitXor(ShiftLeft(crc), 0x1021);
        } else {
          crc := ShiftLeft(crc);
        }
        i := i + 1;
      }
      ByteDone(crc, read, b);
      read := read';
      index := index + 1;
    }
    assert read == data[startIndex..startIndex + length];
    ChecksumOfRegister(data[startIndex..startIndex + length], crc);
  }
}
