/**
 Two flipped bits: the powers of x repeat modulo the generator every 32767 steps and never sooner, so the generator
 divides a pattern of two ones exactly when their distance is a multiple of 32767. No such pattern fits into a frame.
 */
module TwoBitFlips {
  import opened Gf2
  import opened Crc

  /** A residue modulo the generator, coefficient by coefficient. */
  datatype Residue = Residue(
    c15: bool, c14: bool, c13: bool, c12: bool, c11: bool, c10: bool, c9: bool, c8: bool, c7: bool,
    c6: bool, c5: bool, c4: bool, c3: bool, c2: bool, c1: bool, c0: bool)

  const ONE := Residue(false, false, false, false, false, false, false, false, false, false, false, false, false, false, false, true)

  /** Multiplication by x. */
  function Shift(r: Residue): Residue {
    Residue(
      r.c14, r.c13, r.c12, r.c11 != r.c15, r.c10, r.c9, r.c8, r.c7, r.c6, r.c5, r.c4 != r.c15,
      r.c3, r.c2, r.c1, r.c0, r.c15)
  }

  /** The square: x^i becomes x^(2 i), reduced. */
  function Square(r: Residue): Residue {
    Residue(
      r.c13, ((r.c7 != r.c9) != r.c11) != r.c13, r.c12, ((r.c6 != r.c8) != r.c10) != r.c12,
      (r.c11 != r.c13) != r.c15, (r.c5 != r.c13) != r.c15, (r.c10 != r.c12) != r.c14,
      ((r.c4 != r.c12) != r.c14) != r.c15, ((r.c9 != r.c11) != r.c13) != r.c15,
      (((r.c3 != r.c11) != r.c13) != r.c14) != r.c15, ((r.c8 != r.c10) != r.c12) != r.c14,
      ((r.c2 != r.c10) != r.c12) != r.c14, r.c15, (((r.c1 != r.c9) != r.c11) != r.c13) != r.c15,
      r.c14, (((r.c0 != r.c8) != r.c10) != r.c12) != r.c14)
  }

  function Power(n: nat): Residue {
    if n == 0 then ONE else Shift(Power(n - 1))
  }

  lemma SquareOfShift15(r: Residue)
    ensures var a, b := Square(Shift(r)), Shift(Shift(Square(r)));
            a.c15 == b.c15 && a.c14 == b.c14 && a.c13 == b.c13
  {
  }

  lemma SquareOfShift12(r: Residue)
    ensures var a, b := Square(Shift(r)), Shift(Shift(Square(r)));
            a.c12 == b.c12 && a.c11 == b.c11
  {
  }

  lemma SquareOfShift10(r: Residue)
    ensures var a, b := Square(Shift(r)), Shift(Shift(Square(r)));
            a.c10 == b.c10 && a.c9 == b.c9
  {
  }

  lemma SquareOfShift8(r: Residue)
    ensures var a, b := Square(Shift(r)), Shift(Shift(Square(r)));
            a.c8 == b.c8 && a.c7 == b.c7
  {
  }

  lemma SquareOfShift6(r: Residue)
    ensures var a, b := Square(Shift(r)), Shift(Shift(Square(r)));
            a.c6 == b.c6 && a.c5 == b.c5 && a.c4 == b.c4
  {
  }

  lemma SquareOfShift3(r: Residue)
    ensures var a, b := Square(Shift(r)), Shift(Shift(Square(r)));
            a.c3 == b.c3 && a.c2 == b.c2 && a.c1 == b.c1 && a.c0 == b.c0
  {
  }

  /** (x r)^2 == x^2 r^2 */
  lemma SquareOfShift(r: Residue)
    ensures Square(Shift(r)) == Shift(Shift(Square(r)))
  {
    hide Square, Shift;
    SquareOfShift15(r);
    SquareOfShift12(r);
    SquareOfShift10(r);
    SquareOfShift8(r);
    SquareOfShift6(r);
    SquareOfShift3(r);
  }

  lemma ShiftInjective(r: Residue, s: Residue)
    ensures Shift(r) == Shift(s) ==> r == s
  {
  }

  lemma {:induction false} PowerOfDouble(n: nat)
    ensures Power(2 * n) == Square(Power(n))
  {
    if n == 0 {
      assert Square(ONE) == ONE;
    } else {
      PowerOfDouble(n - 1);
      SquareOfShift(Power(n - 1));
      hide Shift, Square;
      assert Power(2 * n) == Shift(Power(2 * n - 1)) == Shift(Shift(Power(2 * (n - 1))));
    }
  }

  lemma Double(n: nat)
    ensures Power(2 * n) == Square(Power(n)) && Power(2 * n + 1) == Shift(Square(Power(n)))
  {
    hide Shift, Square;
    PowerOfDouble(n);
  }

  lemma Power217()
    ensures Power(217) != ONE
  {
    hide Power;
    FirstPower();
    Double(1);
    Double(3);
    Double(6);
    Double(13);
    Double(27);
    Double(54);
    Double(108);
  }

  lemma Power1057()
    ensures Power(1057) != ONE
  {
    hide Power;
    FirstPower();
    Double(1);
    Double(2);
    Double(4);
    Double(8);
    Double(16);
    Double(33);
    Double(66);
    Double(132);
    Double(264);
    Double(528);
  }

  lemma Power4681()
    ensures Power(4681) != ONE
  {
    hide Power;
    FirstPower();
    Double(1);
    Double(2);
    Double(4);
    Double(9);
    Double(18);
    Double(36);
    Double(73);
    Double(146);
    Double(292);
    Double(585);
    Double(1170);
    Double(2340);
  }

  lemma Power32767()
    ensures Power(32767) == ONE
  {
    hide Power;
    FirstPower();
    Double(1);
    Double(3);
    Double(7);
    Double(15);
    Double(31);
    Double(63);
    Double(127);
    Double(255);
    Double(511);
    Double(1023);
    Double(2047);
    Double(4095);
    Double(8191);
    Double(16383);
  }

  lemma FirstPower()
    ensures Power(1) == Shift(ONE)
  {
    assert Power(0) == ONE;
  }

  // ---------------------------------------------------------------- the order of x

  /** x^n is 1 modulo the generator. */
  predicate Period(n: nat) {
    Power(n) == ONE
  }

  lemma {:induction false} PowersDiffer(m: nat, n: nat)
    requires m <= n && Power(m) == Power(n)
    ensures Period(n - m)
  {
    hide Shift;
    if m > 0 {
      ShiftInjective(Power(m - 1), Power(n - 1));
      PowersDiffer(m - 1, n - 1);
    }
  }

  lemma {:induction false} PowersRepeat(n: nat, m: nat)
    requires Period(n)
    ensures Power(n + m) == Power(m)
  {
    hide Shift;
    if m > 0 {
      PowersRepeat(n, m - 1);
    }
  }

  lemma {:induction false} Multiples(n: nat, k: nat)
    requires Period(n)
    ensures Period(k * n)
  {
    hide Power;
    if k == 0 {
      ZerothPower();
    } else {
      Multiples(n, k - 1);
      PowersRepeat((k - 1) * n, n);
      assert (k - 1) * n + n == k * n;
    }
  }

  lemma ZerothPower()
    ensures Period(0)
  {
  }

  /** The greatest common divisor of two periods is a period. */
  lemma {:induction false} CommonPeriod(a: nat, b: nat) returns (g: nat, p: nat, q: nat)
    requires a > 0 && b > 0 && Period(a) && Period(b)
    ensures g > 0 && Period(g) && a == p * g && b == q * g
    decreases a + b
  {
    hide Power;
    if a == b {
      g, p, q := a, 1, 1;
    } else if a < b {
      PowersDiffer(a, b);
      g, p, q := CommonPeriod(a, b - a);
      Distribute(p, q, g);
      q := p + q;
    } else {
      PowersDiffer(b, a);
      g, p, q := CommonPeriod(a - b, b);
      Distribute(p, q, g);
      p := p + q;
    }
  }

  lemma Distribute(p: nat, q: nat, g: nat)
    ensures (p + q) * g == p * g + q * g
  {
  }

  /** Bezout's identity for `p` and `q`. */
  lemma {:induction false} Bezout(p: nat, q: nat) returns (d: nat, u: int, v: int, p': nat, q': nat)
    requires p > 0 && q > 0
    ensures d > 0 && p == p' * d && q == q' * d && u * p + v * q == d
    decreases p + q
  {
    if p == q {
      d, u, v, p', q' := p, 1, 0, 1, 1;
    } else if p < q {
      d, u, v, p', q' := Bezout(p, q - p);
      Distribute(p', q', d);
      assert u * p + v * (q - p) == (u - v) * p + v * q;
      u, q' := u - v, p' + q';
    } else {
      d, u, v, p', q' := Bezout(p - q, q);
      Distribute(p', q', d);
      assert u * (p - q) + v * q == u * p + (v - u) * q;
      v, p' := v - u, p' + q';
    }
  }

  lemma Factors(p: nat, d: nat, e: nat)
    requires p in {7, 31, 151} && d * e == p
    ensures d == 1 || e == 1
  {
    if d > 12 {
      assert d * e >= 13 * e;
    }
    if d <= 12 {
      SmallFactor(p, d, e);
    } else {
      SmallFactor(p, e, d);
    }
  }

  lemma SmallFactor(p: nat, d: nat, e: nat)
    requires p in {7, 31, 151} && d * e == p && d <= 12
    ensures d == 1 || e == 1
  {
    assert d == 0 || d == 1 || d == 2 || d == 3 || d == 4 || d == 5 || d == 6 || d == 7
           || d == 8 || d == 9 || d == 10 || d == 11 || d == 12;
  }

  lemma Positive(p: nat, n: int)
    requires p * n > 0
    ensures n > 0
  {
  }

  lemma Divide(p: nat, m: nat, n: nat)
    requires p > 0 && p * m == p * n
    ensures m == n
  {
  }

  lemma Combine(u: int, v: int, p: int, q: int, g: int, k: int)
    requires u * p + v * q == 1 && q * g == p * k
    ensures g == p * (u * g + v * k)
  {
    Scaled(u * p, v * q, g);
    Regroup(u, p, g);
    Regroup'(v, q, g);
    Regroup(v, p, k);
    Spread(p, u * g, v * k);
  }

  lemma Scaled(a: int, b: int, g: int)
    requires a + b == 1
    ensures g == a * g + b * g
  {
    assert (a + b) * g == a * g + b * g;
  }

  lemma Regroup(u: int, p: int, g: int)
    ensures (u * p) * g == p * (u * g) && u * (p * g) == p * (u * g)
  {
  }

  lemma Regroup'(v: int, q: int, g: int)
    ensures (v * q) * g == v * (q * g)
  {
  }

  lemma Spread(p: int, a: int, b: int)
    ensures p * (a + b) == p * a + p * b
  {
  }

  /** Euclid's lemma for the three prime factors of 32767. */
  lemma Euclid(p: nat, q: nat, g: nat, k: nat) returns (left: bool, m: nat)
    requires p in {7, 31, 151} && q > 0 && g > 0 && q * g == p * k
    ensures if left then q == p * m else g == p * m
  {
    var d, u, v, p', q' := Bezout(p, q);
    Factors(p, p', d);
    if d == 1 {
      var n := u * g + v * k;
      Combine(u, v, p, q, g, k);
      Positive(p, n);
      left, m := false, n;
    } else {
      assert p' == 1;
      left, m := true, q';
      assert q == q' * p == p * q';
    }
  }

  lemma Associate(a: nat, b: nat, c: nat)
    ensures (a * b) * c == a * (b * c) && (b * a) * c == a * (b * c) && b * (a * c) == a * (b * c)
  {
  }

  /** 32767 = 7 * 31 * 151, and none of its proper divisors is a period. */
  lemma NoShortPeriod(k: nat)
    requires 0 < k < 32767
    ensures !Period(k)
  {
    hide Power;
    if Period(k) {
      Power32767();
      var g, p, q := CommonPeriod(k, 32767);
      assert g <= k by {
        Positive(g, p);
      }
      var left, m := Euclid(7, q, g, 4681);
      if left {
        Associate(7, m, g);
        Divide(7, m * g, 4681);
        Multiples(g, m);
        Power4681();
      } else {
        Associate(7, q, m);
        Divide(7, q * m, 4681);
        var left', n := Euclid(31, q, m, 151);
        if left' {
          Associate(31, n, m);
          Divide(31, n * m, 151);
          Associate(7, n, m);
          Multiples(g, n);
          Power1057();
        } else {
          Associate(31, q, n);
          Divide(31, q * n, 151);
          var left'', r := Euclid(151, q, n, 1);
          if left'' {
            Associate(151, r, n);
            Divide(151, r * n, 1);
            Unit(r, n);
            Power217();
          } else {
            Associate(151, q, r);
            Divide(151, q * r, 1);
            Unit(q, r);
          }
        }
      }
    }
  }

  lemma Unit(a: nat, b: nat)
    requires a * b == 1
    ensures a == 1 && b == 1
  {
    assert a > 1 ==> a * b >= 2 * b;
  }

  const ORDER: nat := 32767

  /** The order of x modulo the generator: x^k is 1 exactly for the multiples of 32767. */
  lemma OrderOfX(k: nat)
    ensures Period(k) <==> k % ORDER == 0
  {
    hide Power, Period;
    var q, r := k / ORDER, k % ORDER;
    assert Period(ORDER) by {
      OrderIsPeriod();
    }
    Multiples(ORDER, q);
    if r != 0 {
      PeriodOfSum(q * ORDER, r);
      NoShortPeriod(r);
    }
  }

  lemma OrderIsPeriod()
    ensures Period(ORDER)
  {
    hide Power;
    Power32767();
  }

  lemma PeriodOfSum(n: nat, r: nat)
    requires Period(n)
    ensures Period(n + r) <==> Period(r)
  {
    hide Power;
    PowersRepeat(n, r);
  }

  // ---------------------------------------------------------------- patterns of two ones

  /** The residue that a register of sixteen bits stands for. */
  function OfBits(b: Bits): Residue
    requires |b| == 16
  {
    Residue(b[0], b[1], b[2], b[3], b[4], b[5], b[6], b[7], b[8], b[9], b[10], b[11], b[12], b[13], b[14], b[15])
  }

  lemma Taps(i: nat)
    requires i < 17
    ensures GENERATOR[i] <==> i == 0 || i == 4 || i == 11 || i == 16
  {
  }

  lemma {:induction false} StepAt(r: Bits, b: bool, i: nat)
    requires |r| == 16 && i < 16
    ensures Step(GENERATOR, r, b)[i]
         == ((i < 15 && r[i + 1]) != ((i == 3 || i == 10 || i == 15) && r[0] != b))
  {
    Taps(i + 1);
  }

  lemma ShiftIsStep(r: Bits)
    requires |r| == 16
    ensures OfBits(Step(GENERATOR, r, false)) == Shift(OfBits(r))
  {
    hide Step;
    forall i: nat | i < 16
      ensures Step(GENERATOR, r, false)[i]
           == ((i < 15 && r[i + 1]) != ((i == 3 || i == 10 || i == 15) && r[0]))
    {
      StepAt(r, false, i);
    }
  }

  lemma SixteenthPower()
    ensures Power(16) == Residue(false, false, false, true, false, false, false, false, false, false, true,
                                 false, false, false, false, true)
  {
    hide Power;
    FirstPower();
    Double(1);
    Double(2);
    Double(4);
    Double(8);
  }

  lemma {:induction false} RemainderOfZeros(n: nat)
    ensures Remainder(GENERATOR, Zeros(n)) == Zeros(16)
  {
    hide Remainder;
    GeneratorShape();
    ZerosXor(n);
    RemainderLinear(GENERATOR, Zeros(n), Zeros(n));
    var r := Remainder(GENERATOR, Zeros(n));
    assert Xor(r, r) == Zeros(16);
  }

  lemma RemainderOfFirstOne(i: nat)
    ensures OfBits(Remainder(GENERATOR, Zeros(i) + [true])) == Power(16)
  {
    hide Remainder, Power, Step;
    RemainderOfZeros(i);
    RemainderAppend(GENERATOR, Zeros(i), true);
    SixteenthPower();
    forall k: nat | k < 16
      ensures Step(GENERATOR, Zeros(16), true)[k] == (k == 3 || k == 10 || k == 15)
    {
      StepAt(Zeros(16), true, k);
    }
  }

  function One(i: nat, k: nat): Bits {
    Zeros(i) + [true] + Zeros(k)
  }

  lemma OneGrows(i: nat, k: nat)
    ensures One(i, k + 1) == One(i, k) + [false]
    ensures One(i, 0) == Zeros(i) + [true]
  {
  }

  /** A single one, `k` places before the end. */
  lemma {:induction false} RemainderOfOne(i: nat, k: nat)
    ensures OfBits(Remainder(GENERATOR, One(i, k))) == Power(16 + k)
  {
    if k == 0 {
      OneGrows(i, 0);
      RemainderOfFirstOne(i);
    } else {
      RemainderOfOne(i, k - 1);
      NextPower(16 + (k - 1));
      hide Remainder, Shift, Power, Step, OfBits, One;
      OneGrows(i, k - 1);
      RemainderAppend(GENERATOR, One(i, k - 1), false);
      ShiftIsStep(Remainder(GENERATOR, One(i, k - 1)));
    }
  }

  lemma NextPower(n: nat)
    ensures Power(n + 1) == Shift(Power(n))
  {
  }

  /** Exactly the bits at `i` and `j` are set. */
  ghost predicate TwoOnes(e: Bits, i: nat, j: nat) {
    i < j < |e| && forall k :: 0 <= k < |e| ==> (e[k] <==> k == i || k == j)
  }

  lemma TwoOnesAreTwo(e: Bits, i: nat, j: nat)
    requires TwoOnes(e, i, j)
    ensures |One(i, |e| - 1 - i)| == |One(j, |e| - 1 - j)| == |e|
    ensures e == Xor(One(i, |e| - 1 - i), One(j, |e| - 1 - j))
  {
  }

  lemma NoDifference(a: Bits, b: Bits)
    requires |a| == |b|
    ensures IsZero(Xor(a, b)) <==> a == b
  {
    if IsZero(Xor(a, b)) {
      forall i | 0 <= i < |a| ensures a[i] == b[i] {
        assert !Xor(a, b)[i];
      }
    }
  }

  lemma OfBitsInjective(a: Bits, b: Bits)
    requires |a| == |b| == 16
    ensures OfBits(a) == OfBits(b) <==> a == b
  {
  }

  lemma PowersMeet(m: nat, d: nat)
    ensures Power(m + d) == Power(m) <==> Period(d)
  {
    hide Power;
    if Power(m + d) == Power(m) {
      PowersDiffer(m, m + d);
    }
    if Period(d) {
      PowersRepeat(d, m);
    }
  }

  /** Two ones are a multiple of the generator exactly when their distance is a multiple of 32767. */
  lemma TwoOnesDivisible(e: Bits, i: nat, j: nat)
    requires TwoOnes(e, i, j)
    ensures IsZero(Remainder(GENERATOR, e)) <==> (j - i) % ORDER == 0
  {
    hide Remainder, Power, Shift, OfBits, One, Xor, IsZero, TwoOnes, Period;
    assert 0 <= i < j < |e| by {
      TwoOnesOrder(e, i, j);
    }
    var a, b := |e| - 1 - i, |e| - 1 - j;
    TwoOnesAreTwo(e, i, j);
    RemainderOfOne(i, a);
    RemainderOfOne(j, b);
    RemainderLinear(GENERATOR, One(i, a), One(j, b));
    var r, s := Remainder(GENERATOR, One(i, a)), Remainder(GENERATOR, One(j, b));
    NoDifference(r, s);
    OfBitsInjective(r, s);
    PowersMeet(16 + b, j - i);
    assert 16 + b + (j - i) == 16 + a;
    OrderOfX(j - i);
  }

  lemma TwoOnesOrder(e: Bits, i: nat, j: nat)
    requires TwoOnes(e, i, j)
    ensures i < j < |e|
  {
  }
}
