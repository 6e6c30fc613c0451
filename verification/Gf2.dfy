/**
 Polynomials over GF(2) as bit strings, highest coefficient first, and division by a generator.
 `Remainder` is the shift register that reads a message bit by bit; `RemainderIsUnique` ties it to
 the textbook equation  M(x) * x^n = Q(x) * G(x) + R(x).
 */
module Gf2 {
  type Bits = seq<bool>

  function Zeros(n: nat): (z: Bits)
    ensures |z| == n && forall i :: 0 <= i < n ==> !z[i]
  {
    seq(n, _ => false)
  }

  /** Addition, coefficient by coefficient. */
  function Xor(a: Bits, b: Bits): (c: Bits)
    requires |a| == |b|
    ensures |c| == |a| && forall i :: 0 <= i < |a| ==> c[i] == (a[i] != b[i])
  {
    seq(|a|, i requires 0 <= i < |a| => a[i] != b[i])
  }

  /** The coefficient of a bit string at an index, zero outside it. */
  function At(p: Bits, i: int): bool {
    0 <= i < |p| && p[i]
  }

  /** p(x) * x + b * g(x): what one further coefficient does to a product. */
  function ShiftAdd(p: Bits, b: bool, g: Bits): (p': Bits)
    requires |p| + 1 >= |g|
    ensures |p'| == |p| + 1
    ensures forall i {:trigger At(p', i)} :: At(p', i) == (At(p, i) != (b && At(g, i - (|p| + 1 - |g|))))
  {
    Xor(p + [false], Zeros(|p| + 1 - |g|) + (if b then g else Zeros(|g|)))
  }

  /** Schoolbook multiplication. */
  function Mul(q: Bits, g: Bits): (p: Bits)
    requires |g| > 0
    ensures |p| == |q| + |g| - 1
  {
    if q == [] then Zeros(|g| - 1) else ShiftAdd(Mul(q[..|q| - 1], g), q[|q| - 1], g)
  }

  predicate IsGenerator(g: Bits) {
    |g| >= 2 && g[0] && g[|g| - 1]
  }

  /** One step of the shift register: read bit `b`, subtract the generator if a 1 falls out. */
  function Step(g: Bits, r: Bits, b: bool): (r': Bits)
    requires |g| >= 2 && |r| == |g| - 1
    ensures |r'| == |r|
    ensures forall i :: 0 <= i < |r| ==>
      r'[i] == ((i + 1 < |r| && r[i + 1]) != (r[0] != b && g[i + 1]))
  {
    seq(|r|, i requires 0 <= i < |r| => (i + 1 < |r| && r[i + 1]) != (r[0] != b && g[i + 1]))
  }

  function Remainder(g: Bits, m: Bits): (r: Bits)
    requires |g| >= 2
    ensures |r| == |g| - 1
  {
    if m == [] then Zeros(|g| - 1) else Step(g, Remainder(g, m[..|m| - 1]), m[|m| - 1])
  }

  /** The textbook equation: m(x) * x^n == q(x) * g(x) + r(x), with deg r < n == deg g. */
  predicate Divides(g: Bits, m: Bits, q: Bits, r: Bits) {
    && |g| >= 2 && |q| == |m| && |r| == |g| - 1
    && m + Zeros(|r|) == Xor(Mul(q, g), Zeros(|m|) + r)
  }

  function Quotient(g: Bits, m: Bits): (q: Bits)
    requires |g| >= 2
    ensures |q| == |m|
  {
    if m == [] then []
    else
      var n := |m| - 1;
      Quotient(g, m[..n]) + [Remainder(g, m[..n])[0] != m[n]]
  }

  lemma {:induction false} MulAt(q: Bits, g: Bits, i: int)
    requires |g| > 0 && q != []
    ensures At(Mul(q, g), i) == (At(Mul(q[..|q| - 1], g), i) != (q[|q| - 1] && At(g, i - (|q| - 1))))
  {
    var p, b := Mul(q[..|q| - 1], g), q[|q| - 1];
    var p' := ShiftAdd(p, b, g);
    assert At(p', i) == (At(p, i) != (b && At(g, i - (|p| + 1 - |g|))));
  }

  lemma {:induction false} DividesPointwise(g: Bits, m: Bits, q: Bits, r: Bits)
    requires |g| >= 2 && |q| == |m| && |r| == |g| - 1
    ensures Divides(g, m, q, r)
        <==> forall i :: 0 <= i < |m| + |r| ==> At(m, i) == (At(Mul(q, g), i) != At(r, i - |m|))
  {
    var lhs, rhs := m + Zeros(|r|), Xor(Mul(q, g), Zeros(|m|) + r);
    assert forall i :: 0 <= i < |m| + |r| ==> lhs[i] == At(m, i);
    assert forall i :: 0 <= i < |m| + |r| ==> (Zeros(|m|) + r)[i] == At(r, i - |m|);
    if forall i :: 0 <= i < |m| + |r| ==> At(m, i) == (At(Mul(q, g), i) != At(r, i - |m|)) {
      assert lhs == rhs;
    }
  }

  lemma StepAt(g: Bits, r: Bits, b: bool, i: int)
    requires |g| >= 2 && |r| == |g| - 1
    ensures At(Step(g, r, b), i) == (0 <= i < |r| && At(r, i + 1) != (r[0] != b && g[i + 1]))
  {
  }

  /** What one further bit does to quotient and remainder. */
  lemma {:induction false} DivideOneMore(g: Bits, m: Bits)
    requires |g| >= 2 && m != []
    ensures var n := |m| - 1;
            var r := Remainder(g, m[..n]);
            && Remainder(g, m) == Step(g, r, m[n])
            && Quotient(g, m)[..n] == Quotient(g, m[..n]) && Quotient(g, m)[n] == (r[0] != m[n])
  {
    hide Step;
    assert Quotient(g, m)[..|m| - 1] == Quotient(g, m[..|m| - 1]);
  }

  lemma {:induction false} DividesStep(g: Bits, m: Bits, i: nat)
    requires IsGenerator(g) && m != [] && i < |m| + |g| - 1
    requires Divides(g, m[..|m| - 1], Quotient(g, m[..|m| - 1]), Remainder(g, m[..|m| - 1]))
    ensures At(m, i) == (At(Mul(Quotient(g, m), g), i) != At(Remainder(g, m), i - |m|))
  {
    hide Step, Mul, Quotient, Remainder;
    var n, k := |m| - 1, |g| - 1;
    var m0, b := m[..n], m[n];
    var q, r := Quotient(g, m0), Remainder(g, m0);
    DivideOneMore(g, m);
    MulAt(Quotient(g, m), g, i);
    DividesPointwise(g, m0, q, r);
    hide Divides;
    StepAt(g, r, b, i - |m|);
    if i == n + k {
      assert !At(Mul(q, g), i) && !At(m, i);
    } else {
      assert At(m0, i) == (At(Mul(q, g), i) != At(r, i - n));
      assert At(m, i) == if i == n then b else At(m0, i);
    }
  }

  /** The shift register computes a quotient and remainder that satisfy the textbook equation. */
  lemma {:induction false} RemainderDivides(g: Bits, m: Bits)
    requires IsGenerator(g)
    ensures Divides(g, m, Quotient(g, m), Remainder(g, m))
  {
    DividesPointwise(g, m, Quotient(g, m), Remainder(g, m));
    if m != [] {
      RemainderDivides(g, m[..|m| - 1]);
      forall i | 0 <= i < |m| + |g| - 1
        ensures At(m, i) == (At(Mul(Quotient(g, m), g), i) != At(Remainder(g, m), i - |m|))
      {
        DividesStep(g, m, i);
      }
    }
  }

  ghost predicate IsZero(p: Bits) {
    forall i :: 0 <= i < |p| ==> !p[i]
  }

  lemma {:induction false} MulZero(q: Bits, g: Bits)
    requires |g| > 0 && IsZero(q)
    ensures forall i :: !At(Mul(q, g), i)
  {
    if q != [] {
      MulZero(q[..|q| - 1], g);
      forall i ensures !At(Mul(q, g), i) {
        MulAt(q, g, i);
      }
    }
  }

  lemma {:induction false} MulLinear(a: Bits, b: Bits, g: Bits, i: int)
    requires |g| > 0 && |a| == |b|
    ensures At(Mul(Xor(a, b), g), i) == (At(Mul(a, g), i) != At(Mul(b, g), i))
  {
    hide Mul, Xor;
    if a == [] {
      MulZero(a, g);
      assert Xor(a, b) == b == a;
    } else {
      var n := |a| - 1;
      MulAt(a, g, i);
      MulAt(b, g, i);
      MulAt(Xor(a, b), g, i);
      XorPrefix(a, b);
      MulLinear(a[..n], b[..n], g, i);
    }
  }

  /** The highest term of a product is where the highest term of the first factor is. */
  lemma {:induction false} FirstTerm(q: Bits, g: Bits) returns (i: nat)
    requires IsGenerator(g) && !IsZero(q)
    ensures i < |q| && q[i] && At(Mul(q, g), i) && IsZero(q[..i])
  {
    var n := |q| - 1;
    if IsZero(q[..n]) {
      i := n;
      MulZero(q[..n], g);
    } else {
      i := FirstTerm(q[..n], g);
      assert q[..n][..i] == q[..i];
    }
    MulAt(q, g, i);
  }

  /** The lowest term of a product is deg g below the lowest term of the first factor. */
  lemma {:induction false} LastTerm(q: Bits, g: Bits) returns (j: nat)
    requires IsGenerator(g) && !IsZero(q)
    ensures j < |q| && q[j] && At(Mul(q, g), j + |g| - 1)
  {
    var n := |q| - 1;
    if q[n] {
      j := n;
    } else {
      assert !IsZero(q[..n]);
      j := LastTerm(q[..n], g);
    }
    MulAt(q, g, j + |g| - 1);
  }

  /** The textbook equation has one solution only. */
  lemma {:induction false} DivisionIsUnique(g: Bits, m: Bits, q1: Bits, r1: Bits, q2: Bits, r2: Bits)
    requires IsGenerator(g) && Divides(g, m, q1, r1) && Divides(g, m, q2, r2)
    ensures q1 == q2 && r1 == r2
  {
    DividesPointwise(g, m, q1, r1);
    DividesPointwise(g, m, q2, r2);
    var d := Xor(q1, q2);
    forall i | 0 <= i < |m| + |g| - 1
      ensures At(Mul(d, g), i) == (At(r1, i - |m|) != At(r2, i - |m|))
    {
      MulLinear(q1, q2, g, i);
    }
    if !IsZero(d) {
      var i := FirstTerm(d, g);
      assert false;
    }
    MulZero(d, g);
    assert forall i :: 0 <= i < |q1| ==> !d[i] && d[i] == (q1[i] != q2[i]);
    forall i | 0 <= i < |r1| ensures r1[i] == r2[i] {
      assert !At(Mul(d, g), i + |m|);
      assert i + |m| - |m| == i;
    }
  }

  /** `r` is the remainder of m(x) * x^n by g(x) exactly when the shift register holds it. */
  lemma {:induction false} RemainderIsUnique(g: Bits, m: Bits, r: Bits)
    requires IsGenerator(g)
    ensures r == Remainder(g, m) <==> exists q :: Divides(g, m, q, r)
  {
    RemainderDivides(g, m);
    if q :| Divides(g, m, q, r) {
      DivisionIsUnique(g, m, q, r, Quotient(g, m), Remainder(g, m));
    }
  }

  lemma StepLinear(g: Bits, r: Bits, s: Bits, x: bool, y: bool)
    requires |g| >= 2 && |r| == |s| == |g| - 1
    ensures Step(g, Xor(r, s), x != y) == Xor(Step(g, r, x), Step(g, s, y))
  {
    var lhs, rhs := Step(g, Xor(r, s), x != y), Xor(Step(g, r, x), Step(g, s, y));
    hide Step, Xor;
    assert forall i :: 0 <= i < |r| ==> lhs[i] == rhs[i];
  }

  lemma XorPrefix(a: Bits, b: Bits)
    requires |a| == |b| && a != []
    ensures var n := |a| - 1;
            Xor(a, b)[..n] == Xor(a[..n], b[..n]) && Xor(a, b)[n] == (a[n] != b[n])
  {
  }

  lemma {:induction false} RemainderLinear(g: Bits, a: Bits, b: Bits)
    requires |g| >= 2 && |a| == |b|
    ensures Remainder(g, Xor(a, b)) == Xor(Remainder(g, a), Remainder(g, b))
  {
    hide Step;
    if a == [] {
      ZerosXor(|g| - 1);
    } else {
      var n := |a| - 1;
      RemainderLinear(g, a[..n], b[..n]);
      hide Xor;
      XorPrefix(a, b);
      StepLinear(g, Remainder(g, a[..n]), Remainder(g, b[..n]), a[n], b[n]);
    }
  }

  lemma ZerosXor(n: nat)
    ensures Xor(Zeros(n), Zeros(n)) == Zeros(n)
  {
  }

  /** A message that leaves no remainder is, shifted, a multiple of the generator. */
  lemma {:induction false} ZeroRemainder(g: Bits, m: Bits)
    requires IsGenerator(g) && IsZero(Remainder(g, m))
    ensures forall i :: At(Mul(Quotient(g, m), g), i) == At(m, i)
  {
    RemainderDivides(g, m);
    DividesPointwise(g, m, Quotient(g, m), Remainder(g, m));
  }

  /** A nonzero message without remainder has two ones at least deg g apart. */
  lemma {:induction false} MultipleIsWide(g: Bits, e: Bits) returns (i: nat, j: nat)
    requires IsGenerator(g) && !IsZero(e) && IsZero(Remainder(g, e))
    ensures i < j < |e| && e[i] && e[j] && j - i >= |g| - 1
  {
    ZeroRemainder(g, e);
    var q := Quotient(g, e);
    var k :| 0 <= k < |e| && e[k];
    assert At(e, k) && At(Mul(q, g), k);
    if IsZero(q) {
      MulZero(q, g);
      assert false;
    }
    i := FirstTerm(q, g);
    j := LastTerm(q, g);
    assert forall k :: 0 <= k < i ==> !q[..i][k] && !q[k];
    assert At(e, i) && At(e, j + |g| - 1);
    j := j + |g| - 1;
  }

  /** All ones lie within `k` consecutive positions from `w` on. */
  ghost predicate Within(e: Bits, w: int, k: nat) {
    forall i :: 0 <= i < |e| && e[i] ==> w <= i < w + k
  }

  /** No nonzero pattern that fits in deg g consecutive bits is a multiple of the generator. */
  lemma {:induction false} BurstLeavesRemainder(g: Bits, e: Bits, w: int)
    requires IsGenerator(g) && !IsZero(e)
    requires Within(e, w, |g| - 1)
    ensures !IsZero(Remainder(g, e))
  {
    if IsZero(Remainder(g, e)) {
      var i, j := MultipleIsWide(g, e);
    }
  }

  lemma {:induction false} MulPadded(q: Bits, g: Bits, n: nat, i: int)
    requires |g| > 0
    ensures At(Mul(q + Zeros(n), g), i) == At(Mul(q, g), i)
  {
    if n == 0 {
      assert q + Zeros(0) == q;
    } else {
      var q' := q + Zeros(n);
      MulPadded(q, g, n - 1, i);
      MulAt(q', g, i);
      assert q'[..|q'| - 1] == q + Zeros(n - 1);
    }
  }

  /** The equation of a message, read as that of the message with its remainder appended. */
  lemma {:induction false} OwnTrailerAt(g: Bits, m: Bits, q: Bits, r: Bits, i: nat)
    requires |g| >= 2 && |q| == |m| && |r| == |g| - 1
    requires i < |m| + |r| ==> At(m, i) == (At(Mul(q, g), i) != At(r, i - |m|))
    ensures At(m + r, i) == (At(Mul(q + Zeros(|r|), g), i) != At(Zeros(|r|), i - |m + r|))
  {
    hide Mul;
    MulPadded(q, g, |r|, i);
    if i < |m| + |r| {
      assert At(m + r, i) == (At(m, i) != At(r, i - |m|));
    } else {
      assert !At(m + r, i) && !At(Mul(q, g), i);
    }
  }

  /** Appending the remainder makes a message divisible. */
  lemma {:induction false} OwnTrailer(g: Bits, m: Bits)
    requires IsGenerator(g)
    ensures IsZero(Remainder(g, m + Remainder(g, m)))
  {
    hide Mul, Quotient, Remainder, Divides, At, Zeros;
    var q, r := Quotient(g, m), Remainder(g, m);
    RemainderDivides(g, m);
    DividesPointwise(g, m, q, r);
    var c, z := m + r, Zeros(|r|);
    forall i | 0 <= i < |c| + |z| ensures At(c, i) == (At(Mul(q + z, g), i) != At(z, i - |c|)) {
      OwnTrailerAt(g, m, q, r, i);
    }
    DividesPointwise(g, c, q + z, z);
    RemainderIsUnique(g, c, z);
  }

  lemma {:induction false} XorZero(a: Bits, b: Bits)
    requires |a| == |b| && IsZero(a)
    ensures Xor(a, b) == b
  {
  }

  lemma {:induction false} OtherTrailer(g: Bits, m: Bits, w: Bits, e: Bits)
    requires IsGenerator(g) && |w| == |g| - 1
    requires e == Zeros(|m|) + Xor(Remainder(g, m), w)
    ensures Remainder(g, m + w) == Remainder(g, e)
  {
    var c := m + Remainder(g, m);
    assert m + w == Xor(c, e);
    OwnTrailer(g, m);
    RemainderLinear(g, c, e);
    XorZero(Remainder(g, c), Remainder(g, e));
  }

  /** A message followed by a trailer leaves no remainder exactly when the trailer is its remainder. */
  lemma {:induction false} TrailerCheck(g: Bits, m: Bits, w: Bits)
    requires IsGenerator(g) && |w| == |g| - 1
    ensures IsZero(Remainder(g, m + w)) <==> w == Remainder(g, m)
  {
    var r := Remainder(g, m);
    var e := Zeros(|m|) + Xor(r, w);
    if w == r {
      OwnTrailer(g, m);
    } else {
      var i :| 0 <= i < |w| && w[i] != r[i];
      assert e[|m| + i];
      OtherTrailer(g, m, w, e);
      BurstLeavesRemainder(g, e, |m|);
    }
  }

  /** Bits waiting to be read, added to the top of a register of width `n`. */
  function Pad(w: Bits, n: nat): (p: Bits)
    requires |w| <= n
    ensures |p| == n && forall i :: 0 <= i < n ==> p[i] == (i < |w| && w[i])
  {
    w + Zeros(n - |w|)
  }

  /** Adding waiting bits to the register up front is the same as reading them one at a time. */
  lemma {:induction false} AbsorbStep(g: Bits, r: Bits, w: Bits)
    requires |g| >= 2 && |r| == |g| - 1 && 0 < |w| <= |r|
    ensures Step(g, Xor(r, Pad(w, |r|)), false) == Xor(Step(g, r, w[0]), Pad(w[1..], |r|))
  {
  }

  lemma {:induction false} RemainderAppend(g: Bits, m: Bits, b: bool)
    requires |g| >= 2
    ensures Remainder(g, m + [b]) == Step(g, Remainder(g, m), b)
  {
    assert (m + [b])[..|m|] == m;
  }

  /** A register that has read `m` and the first `i` bits of `w`, the rest of `w` waiting in it. */
  predicate Waiting(g: Bits, r: Bits, m: Bits, w: Bits, i: nat) {
    && |g| >= 2 && i <= |w| <= |g| - 1
    && r == Xor(Remainder(g, m + w[..i]), Pad(w[i..], |g| - 1))
  }

  lemma {:induction false} WaitingStep(g: Bits, r: Bits, m: Bits, w: Bits, i: nat)
    requires i < |w| && Waiting(g, r, m, w, i)
    ensures Waiting(g, Step(g, r, false), m, w, i + 1)
  {
    hide Remainder, Step;
    var m0 := m + w[..i];
    AbsorbStep(g, Remainder(g, m0), w[i..]);
    RemainderAppend(g, m0, w[i]);
    assert m0 + [w[i]] == m + w[..i + 1];
    assert w[i..][1..] == w[i + 1..];
  }

  lemma {:induction false} WaitingStart(g: Bits, m: Bits, w: Bits)
    requires |g| >= 2 && |w| <= |g| - 1
    ensures Waiting(g, Xor(Remainder(g, m), Pad(w, |g| - 1)), m, w, 0)
  {
    assert m + w[..0] == m && w[0..] == w;
  }

  lemma {:induction false} WaitingDone(g: Bits, r: Bits, m: Bits, w: Bits)
    requires Waiting(g, r, m, w, |w|)
    ensures r == Remainder(g, m + w)
  {
    assert w[..|w|] == w;
  }

  /** Whether a bit string has an odd number of ones. */
  function Odd(p: Bits): bool {
    p != [] && Odd(p[..|p| - 1]) != p[|p| - 1]
  }

  lemma {:induction false} OddAppend(a: Bits, b: Bits)
    ensures Odd(a + b) == (Odd(a) != Odd(b))
  {
    if b == [] {
      assert a + b == a;
    } else {
      var n := |b| - 1;
      OddAppend(a, b[..n]);
      assert (a + b)[..|a| + n] == a + b[..n];
    }
  }

  lemma {:induction false} OddXor(a: Bits, b: Bits)
    requires |a| == |b|
    ensures Odd(Xor(a, b)) == (Odd(a) != Odd(b))
  {
    if a != [] {
      var n := |a| - 1;
      OddXor(a[..n], b[..n]);
      assert Xor(a, b)[..n] == Xor(a[..n], b[..n]);
    }
  }

  lemma {:induction false} OddZero(p: Bits)
    requires IsZero(p)
    ensures !Odd(p)
  {
    if p != [] {
      OddZero(p[..|p| - 1]);
    }
  }

  /** If the generator has an even number of terms, so has each of its multiples. */
  lemma {:induction false} OddMul(q: Bits, g: Bits)
    requires |g| > 0 && !Odd(g)
    ensures !Odd(Mul(q, g))
  {
    if q == [] {
      OddZero(Zeros(|g| - 1));
    } else {
      var n := |q| - 1;
      OddMul(q[..n], g);
      OddAppend(Mul(q[..n], g), [false]);
      OddZero([false]);
      OddZero(Zeros(n));
      OddZero(Zeros(|g|));
      OddAppend(Zeros(n), if q[n] then g else Zeros(|g|));
      OddXor(Mul(q[..n], g) + [false], Zeros(n) + (if q[n] then g else Zeros(|g|)));
    }
  }

  /** A generator with an even number of terms divides no pattern with an odd number of ones. */
  lemma {:induction false} OddLeavesRemainder(g: Bits, e: Bits)
    requires IsGenerator(g) && !Odd(g) && Odd(e)
    ensures !IsZero(Remainder(g, e))
  {
    if IsZero(Remainder(g, e)) {
      ZeroRemainder(g, e);
      var p := Mul(Quotient(g, e), g);
      assert forall i :: 0 <= i < |p| ==> p[i] == At(p, i);
      assert |p| == |e| + |g| - 1;
      assert p == e + Zeros(|g| - 1);
      OddMul(Quotient(g, e), g);
      OddZero(Zeros(|g| - 1));
      OddAppend(e, Zeros(|g| - 1));
      assert false;
    }
  }
}
