/** Bytes and 16-bit words as the C++ sources see them, read as unsigned integers. */
module Bytes {
  type byte = x: int | 0 <= x < 256
  type word = x: int | 0 <= x < 65536

  /** The cast `(uint8_t)n` of a two's complement integer. */
  function Byte(n: int): (b: byte)
    ensures 0 <= n ==> b <= n
  {
    n % 256
  }

  /** The two big-endian bytes of the cast `(uint16_t)n`. */
  function PairBytes(n: int): (bs: seq<byte>)
    ensures |bs| == 2
  {
    [Byte(n / 256), Byte(n)]
  }

  /** Big-endian reading of two bytes. */
  function Pair(hi: byte, lo: byte): word {
    hi * 256 + lo
  }

  lemma {:induction false} PairOfBytes(n: int)
    ensures Pair(PairBytes(n)[0], PairBytes(n)[1]) == n % 65536
  {
  }

  lemma Halves(hi: int, lo: int)
    requires 0 <= lo < 256
    ensures (hi * 256 + lo) / 256 == hi && (hi * 256 + lo) % 256 == lo
  {
  }

  lemma {:induction false} BytesOfPair(hi: byte, lo: byte)
    ensures PairBytes(Pair(hi, lo)) == [hi, lo]
  {
    var n: int := Pair(hi, lo);
    Halves(hi, lo);
    assert n / 256 == hi && n % 256 == lo;
    assert Byte(n) == lo && Byte(n / 256) == hi % 256 == hi;
    hide Byte, Pair;
  }

  /** Concatenation of a list of byte strings. */
  function Flatten(parts: seq<seq<byte>>): seq<byte> {
    if parts == [] then [] else parts[0] + Flatten(parts[1..])
  }

  lemma {:induction false} FlattenAppend(a: seq<seq<byte>>, b: seq<seq<byte>>)
    ensures Flatten(a + b) == Flatten(a) + Flatten(b)
  {
    if a == [] {
      assert a + b == b;
    } else {
      FlattenAppend(a[1..], b);
      assert (a + b)[1..] == a[1..] + b && (a + b)[0] == a[0];
      assert Flatten(a + b) == a[0] + (Flatten(a[1..]) + Flatten(b));
    }
  }
}
