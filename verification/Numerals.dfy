/**
 The C++ conversions between numbers and text that handlers use: `std::to_string(int)` and `std::stoi(text, nullptr, 0)`.
 */
module Numerals {
  import opened Basics

  /** The decimal digits. */
  function DigitChar(d: nat): char
    requires d < 10
  {
    '0' + d as char
  }

  /** The value of a digit in any base up to 16, and 16 for other characters. */
  function DigitValue(c: char): (d: nat)
    ensures d <= 16
  {
    if '0' <= c <= '9' then (c - '0') as nat
    else if 'a' <= c <= 'f' then (c - 'a') as nat + 10
    else if 'A' <= c <= 'F' then (c - 'A') as nat + 10
    else 16
  }

  function Natural(n: nat): (s: string)
    ensures s != []
  {
    if n < 10 then [DigitChar(n)] else Natural(n / 10) + [DigitChar(n % 10)]
  }

  /** `std::to_string` */
  function ToString(n: int): string {
    if n < 0 then "-" + Natural(-n) else Natural(n)
  }

  /** The longest beginning of a text that consists of digits of a base. */
  function DigitsIn(s: string, base: nat): (k: nat)
    ensures k <= |s|
  {
    if s == [] || DigitValue(s[0]) >= base then 0 else 1 + DigitsIn(s[1..], base)
  }

  function ValueIn(s: string, base: nat): int {
    if s == [] then 0 else ValueIn(s[..|s| - 1], base) * base + DigitValue(s[|s| - 1])
  }

  predicate IsSpace(c: char) {
    c == ' ' || '\t' <= c <= '\r'
  }

  function SkipSpaces(s: string): string {
    if s != [] && IsSpace(s[0]) then SkipSpaces(s[1..]) else s
  }

  /** The magnitude in base 16 after 0x, in base 8 after another 0, in base 10 otherwise; None without a digit. */
  function Magnitude(s: string): Option<int> {
    var hex := |s| > 2 && s[0] == '0' && s[1] in {'x', 'X'} && DigitValue(s[2]) < 16;
    var base := if hex then 16 else if s != [] && s[0] == '0' then 8 else 10;
    var digits := if hex then s[2..] else s;
    var k := DigitsIn(digits, base);
    if k == 0 then None else Some(ValueIn(digits[..k], base))
  }

  /** `std::stoi` with base 0; None where it throws, because there is no number or it does not fit into an `int`. */
  function Stoi(text: string): (r: Option<int>)
    ensures r.Some? ==> -0x8000_0000 <= r.value < 0x8000_0000
  {
    var s := SkipSpaces(text);
    var negative := s != [] && s[0] == '-';
    var m := Magnitude(if s != [] && (s[0] == '-' || s[0] == '+') then s[1..] else s);
    if m.None? then None
    else
      var n := if negative then -m.value else m.value;
      if -0x8000_0000 <= n < 0x8000_0000 then Some(n) else None
  }

  lemma DigitOfChar(d: nat)
    requires d < 10
    ensures DigitValue(DigitChar(d)) == d && !IsSpace(DigitChar(d))
    ensures DigitChar(d) != '-' && DigitChar(d) != '+' && (DigitChar(d) == '0' <==> d == 0)
  {
  }

  /** The decimal notation starts with 0 only for 0, consists of digits, and has the value it notes. */
  lemma {:induction false} NaturalDigits(n: nat)
    ensures var s := Natural(n);
            && ValueIn(s, 10) == n
            && (forall i :: 0 <= i < |s| ==> DigitValue(s[i]) < 10)
            && !IsSpace(s[0]) && s[0] != '-' && s[0] != '+' && (s[0] == '0' <==> n == 0)
  {
    hide DigitValue, DigitChar, IsSpace;
    if n < 10 {
      DigitOfChar(n);
      assert ValueIn([], 10) == 0;
    } else {
      NaturalDigits(n / 10);
      DigitOfChar(n % 10);
      assert Natural(n)[..|Natural(n)| - 1] == Natural(n / 10);
    }
  }

  lemma {:induction false} AllDigits(s: string, base: nat)
    requires forall i :: 0 <= i < |s| ==> DigitValue(s[i]) < base
    ensures DigitsIn(s, base) == |s|
  {
    if s != [] {
      AllDigits(s[1..], base);
    }
  }

  lemma MagnitudeOfNatural(n: nat)
    ensures Magnitude(Natural(n)) == Some(n)
  {
    hide DigitValue, IsSpace;
    var s := Natural(n);
    NaturalDigits(n);
    if n == 0 {
      assert s == [DigitChar(0)];
      DigitOfChar(0);
      AllDigits(s, 8);
      assert ValueIn([], 8) == 0;
    } else {
      AllDigits(s, 10);
    }
    assert s[..|s|] == s;
  }

  /** What was written as a number is read as that number; outside 32 bits reading fails. */
  lemma StoiOfToString(n: int)
    ensures Stoi(ToString(n)) == if -0x8000_0000 <= n < 0x8000_0000 then Some(n) else None
  {
    hide Magnitude, Natural;
    var s := Natural(if n < 0 then -n else n);
    NaturalDigits(if n < 0 then -n else n);
    MagnitudeOfNatural(if n < 0 then -n else n);
    assert n < 0 ==> ("-" + s)[1..] == s;
  }

  // ---------------------------------------------------------------- any text

  /** The value of each digit, and of no other character below 16. */
  lemma DigitValues(c: char)
    ensures '0' <= c <= '9' ==> DigitValue(c) == c as int - 48
    ensures 'a' <= c <= 'f' ==> DigitValue(c) == c as int - 87
    ensures 'A' <= c <= 'F' ==> DigitValue(c) == c as int - 55
    ensures !('0' <= c <= '9') && !('a' <= c <= 'f') && !('A' <= c <= 'F') ==> DigitValue(c) == 16
  {
  }

  /** Place value: each further digit multiplies what stands before it by the base. */
  lemma PlaceValue(s: string, c: char, base: nat)
    ensures ValueIn("", base) == 0
    ensures ValueIn(s + [c], base) == ValueIn(s, base) * base + DigitValue(c)
  {
    assert (s + [c])[..|s|] == s;
  }

  /** The decimal notation: single digits, further digits behind them, and a sign before negative numbers. */
  lemma Notation(n: int)
    requires n >= 0
    ensures n < 10 ==> ToString(n) == [(48 + n) as char]
    ensures n >= 10 ==> ToString(n) == ToString(n / 10) + ToString(n % 10)
    ensures n > 0 ==> ToString(-n) == ['-'] + ToString(n)
  {
  }

  predicate AllSpaces(s: string) {
    forall i :: 0 <= i < |s| ==> s[i] == ' ' || s[i] == '\t' || s[i] == '\n' || s[i] == '\U{000B}' || s[i] == '\U{000C}' || s[i] == '\r'
  }

  predicate DigitString(s: string, base: nat) {
    forall i :: 0 <= i < |s| ==> DigitValue(s[i]) < base
  }

  /** A text that does not go on with a digit. */
  predicate NoDigit(s: string, base: nat) {
    s == [] || DigitValue(s[0]) >= base
  }

  /** A text that cannot be taken for white space or a sign. */
  predicate Bare(s: string) {
    s == [] || (!AllSpaces(s[..1]) && s[0] != '+' && s[0] != '-')
  }

  /** The outcome for a number with a sign: the number if it fits into 32 bits. */
  function Signed(sign: string, n: int): Option<int> {
    var v := if sign == "-" then -n else n;
    if -0x8000_0000 <= v <= 0x7FFF_FFFF then Some(v) else None
  }

  lemma {:induction false} SpacesAreSkipped(spaces: string, rest: string)
    requires AllSpaces(spaces) && (rest == [] || !IsSpace(rest[0]))
    ensures SkipSpaces(spaces + rest) == rest
    decreases |spaces|
  {
    if spaces == [] {
      assert spaces + rest == rest;
    } else {
      SpacesAreSkipped(spaces[1..], rest);
      assert (spaces + rest)[1..] == spaces[1..] + rest && (spaces + rest)[0] == spaces[0];
    }
  }

  lemma {:induction false} DigitsAreTaken(digits: string, rest: string, base: nat)
    requires DigitString(digits, base) && NoDigit(rest, base)
    ensures DigitsIn(digits + rest, base) == |digits|
    decreases |digits|
  {
    hide DigitValue;
    if digits == [] {
      assert digits + rest == rest;
    } else {
      DigitsAreTaken(digits[1..], rest, base);
      assert (digits + rest)[1..] == digits[1..] + rest && (digits + rest)[0] == digits[0];
    }
  }

  /** White space and a sign lead on to the magnitude. */
  lemma StoiOfParts(spaces: string, sign: string, body: string)
    requires AllSpaces(spaces) && (sign == "" || sign == "+" || sign == "-") && (sign == "" ==> Bare(body))
    ensures Stoi(spaces + sign + body) == if Magnitude(body).Some? then Signed(sign, Magnitude(body).value) else None
  {
    hide Magnitude;
    var s := sign + body;
    assert spaces + sign + body == spaces + s;
    FirstIsNoSpace(sign, body);
    SpacesAreSkipped(spaces, s);
    if sign == "" {
      assert s == body;
    } else {
      assert s[0] == sign[0] && s[1..] == body;
    }
  }

  lemma FirstIsNoSpace(sign: string, body: string)
    requires (sign == "" || sign == "+" || sign == "-") && (sign == "" ==> Bare(body))
    ensures sign + body == [] || !IsSpace((sign + body)[0])
  {
    if sign == "" && body != [] {
      assert sign + body == body;
      OnlySpaces(body[0]);
      assert body[..1] == [body[0]];
    }
  }

  lemma OnlySpaces(c: char)
    ensures IsSpace(c) <==> AllSpaces([c])
  {
    var s := [c];
    assert s[0] == c;
    assert IsSpace(c) ==> c == ' ' || c as int == 9 || c as int == 10 || c as int == 11 || c as int == 12 || c as int == 13;
    assert '\t' as int == 9 && '\n' as int == 10 && '\U{000B}' as int == 11 && '\U{000C}' as int == 12 && '\r' as int == 13;
  }

  lemma DigitIsBare(s: string)
    requires s != [] && DigitValue(s[0]) < 10
    ensures Bare(s)
  {
    DigitValues(s[0]);
    OnlySpaces(s[0]);
    assert s[..1] == [s[0]];
  }

  lemma MagnitudeOfDigits(body: string, digits: string, rest: string, base: nat)
    requires body == digits + rest && digits != [] && DigitString(digits, base) && NoDigit(rest, base)
    ensures DigitsIn(body, base) == |digits| && body[..DigitsIn(body, base)] == digits
  {
    hide DigitValue;
    DigitsAreTaken(digits, rest, base);
  }

  /** Decimal digits, whatever stands behind them. */
  lemma StoiDecimal(spaces: string, sign: string, digits: string, rest: string)
    requires AllSpaces(spaces) && (sign == "" || sign == "+" || sign == "-")
    requires digits != [] && digits[0] != '0' && DigitString(digits, 10) && NoDigit(rest, 10)
    ensures Stoi(spaces + sign + (digits + rest)) == Signed(sign, ValueIn(digits, 10))
  {
    hide DigitValue, Stoi, ValueIn, Bare, DigitsIn;
    var body := digits + rest;
    DigitIsBare(body);
    MagnitudeOfDigits(body, digits, rest, 10);
    StoiOfParts(spaces, sign, body);
  }

  /** Hexadecimal digits behind 0x or 0X. */
  lemma StoiHexadecimal(spaces: string, sign: string, x: char, digits: string, rest: string)
    requires AllSpaces(spaces) && (sign == "" || sign == "+" || sign == "-") && (x == 'x' || x == 'X')
    requires digits != [] && DigitString(digits, 16) && NoDigit(rest, 16)
    ensures Stoi(spaces + sign + (['0', x] + digits + rest)) == Signed(sign, ValueIn(digits, 16))
  {
    DigitValues('0');
    hide DigitValue, Stoi, ValueIn, Bare, DigitsIn;
    var body := ['0', x] + digits + rest;
    assert body[2..] == digits + rest && body[2] == digits[0];
    DigitIsBare(body);
    MagnitudeOfDigits(body[2..], digits, rest, 16);
    StoiOfParts(spaces, sign, body);
  }

  lemma {:induction false} LeadingZero(digits: string, base: nat)
    ensures ValueIn(['0'] + digits, base) == ValueIn(digits, base)
    decreases |digits|
  {
    DigitValues('0');
    hide DigitValue;
    var s := ['0'] + digits;
    if digits == [] {
      assert s[..0] == [];
    } else {
      var n := |digits| - 1;
      LeadingZero(digits[..n], base);
      assert s[..|s| - 1] == ['0'] + digits[..n] && s[|s| - 1] == digits[n];
    }
  }

  /** Octal digits behind a leading 0, which is a digit itself. */
  lemma StoiOctal(spaces: string, sign: string, digits: string, rest: string)
    requires AllSpaces(spaces) && (sign == "" || sign == "+" || sign == "-")
    requires DigitString(digits, 8) && NoDigit(rest, 8)
    requires !(digits == [] && |rest| > 1 && (rest[0] == 'x' || rest[0] == 'X') && DigitValue(rest[1]) < 16)
    ensures Stoi(spaces + sign + (['0'] + digits + rest)) == Signed(sign, ValueIn(digits, 8))
  {
    DigitValues('0');
    DigitValues('x');
    DigitValues('X');
    hide DigitValue, Stoi, ValueIn, Bare, DigitsIn;
    var body := ['0'] + digits + rest;
    assert body[0] == '0' && (digits != [] ==> body[1] == digits[0]);
    assert digits == [] ==> body == ['0'] + rest;
    DigitIsBare(body);
    MagnitudeOfDigits(body, ['0'] + digits, rest, 8);
    LeadingZero(digits, 8);
    StoiOfParts(spaces, sign, body);
  }

  /** Without a digit there is no number. */
  lemma StoiNothing(spaces: string, sign: string, rest: string)
    requires AllSpaces(spaces) && (sign == "" || sign == "+" || sign == "-") && (sign == "" ==> Bare(rest))
    requires NoDigit(rest, 10)
    ensures Stoi(spaces + sign + rest) == None
  {
    DigitValues('0');
    hide DigitValue, Stoi, ValueIn, Bare;
    StoiOfParts(spaces, sign, rest);
  }

  /** A number that `std::to_string` wrote is read back, whatever text follows. */
  lemma StoiOfToStringAnd(n: int, rest: string)
    requires NoDigit(rest, 10) && n != 0
    ensures Stoi(ToString(n) + rest) == if -0x8000_0000 <= n < 0x8000_0000 then Some(n) else None
  {
    hide DigitValue, Stoi, ValueIn, Natural;
    var m: nat := if n < 0 then -n else n;
    var sign := if n < 0 then "-" else "";
    NaturalDigits(m);
    StoiDecimal("", sign, Natural(m), rest);
    assert ToString(n) == sign + Natural(m);
    assert "" + sign + (Natural(m) + rest) == sign + Natural(m) + rest;
  }

  /** As when the text is a decimal fraction. */
  lemma StoiOfFraction()
    ensures Stoi("90.0") == Some(90)
  {
    PlaceValue("9", '0', 10);
    PlaceValue("", '9', 10);
    assert "" + ['9'] == "9" && "9" + ['0'] == "90";
    StoiDecimal("", "", "90", ".0");
    assert "" + "" + ("90" + ".0") == "90.0";
  }
}
