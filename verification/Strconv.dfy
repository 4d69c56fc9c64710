/** Decimal integers as Go's strconv reads and writes them (64-bit int). */
module Strconv {
  import opened Wrappers

  const INT_MIN: int := -0x8000_0000_0000_0000
  const INT_MAX: int := 0x7fff_ffff_ffff_ffff

  predicate IsDigit(c: char) {
    '0' <= c <= '9'
  }

  function Digit(d: nat): (c: char)
    requires d < 10
    ensures IsDigit(c) && c as int - '0' as int == d
  {
    (d + '0' as int) as char
  }

  /** The value of a digit string, most significant digit first. */
  function Digits(s: string): nat
    requires AllDigits(s)
  {
    if s == [] then 0
    else
      assert IsDigit(s[|s| - 1]);
      Digits(s[..|s| - 1]) * 10 + (s[|s| - 1] as int - '0' as int)
  }

  function DigitsOf(n: nat): (s: string)
    ensures s != [] && AllDigits(s)
  {
    if n < 10 then [Digit(n)] else DigitsOf(n / 10) + [Digit(n % 10)]
  }

  function Itoa(n: int): string {
    if n < 0 then "-" + DigitsOf(-n) else DigitsOf(n)
  }

  predicate AllDigits(s: string) {
    forall i :: 0 <= i < |s| ==> IsDigit(s[i])
  }

  /** The text without a leading sign. */
  function Unsigned(s: string): string {
    if s != [] && (s[0] == '-' || s[0] == '+') then s[1..] else s
  }

  /** An optional sign, at least one digit and nothing else, within the range of int. */
  function Atoi(s: string): Option<int> {
    var negative := s != [] && s[0] == '-';
    var body := Unsigned(s);
    if body == [] || !AllDigits(body) then None
    else
      var magnitude: int := Digits(body);
      var n := if negative then -magnitude else magnitude;
      if INT_MIN <= n <= INT_MAX then Some(n) else None
  }

  lemma {:induction false} DigitsRoundTrip(n: nat)
    ensures Digits(DigitsOf(n)) == n
  {
    if n < 10 {
      assert DigitsOf(n)[..0] == [];
    } else {
      DigitsRoundTrip(n / 10);
      assert DigitsOf(n)[..|DigitsOf(n)| - 1] == DigitsOf(n / 10);
    }
  }

  /** Writing then reading gives the number back. */
  lemma AtoiItoa(n: int)
    requires INT_MIN <= n <= INT_MAX
    ensures Atoi(Itoa(n)) == Some(n)
  {
    DigitsRoundTrip(if n < 0 then -n else n);
    if n < 0 {
      assert Itoa(n)[1..] == DigitsOf(-n);
    } else {
      assert IsDigit(Itoa(n)[0]);
    }
  }

  // ----- what reads as a number -----

  function Zeros(n: nat): (s: string)
    ensures |s| == n && forall i :: 0 <= i < n ==> s[i] == '0'
  {
    seq(n, i => '0')
  }

  /** A sign that fits the number or none, any leading zeros, then the digits of its absolute value. */
  ghost predicate Numeral(s: string, n: int) {
    exists sign, zeros: nat | IsSign(sign) ::
      s == sign + Zeros(zeros) + DigitsOf(Abs(n)) && (n < 0 ==> sign == "-") && (n > 0 ==> sign != "-")
  }

  predicate IsSign(sign: string) {
    sign == "" || sign == "+" || sign == "-"
  }

  function Abs(n: int): nat {
    if n < 0 then -n else n
  }

  /** A non-empty digit string is leading zeros and the digits of its value. */
  lemma {:induction false} DigitStringShape(s: string) returns (zeros: nat)
    requires s != [] && AllDigits(s)
    ensures s == Zeros(zeros) + DigitsOf(Digits(s))
  {
    var last := s[|s| - 1];
    var d: nat := last as int - '0' as int;
    assert Digit(d) == last;
    if |s| == 1 {
      zeros := 0;
      assert s[..0] == [] && s == [last];
    } else {
      var rest := s[..|s| - 1];
      zeros := DigitStringShape(rest);
      assert s == rest + [last];
      if Digits(rest) == 0 {
        zeros := zeros + 1;
        assert Zeros(zeros) == Zeros(zeros - 1) + "0";
      } else {
        assert DigitsOf(Digits(s)) == DigitsOf(Digits(rest)) + [last];
      }
    }
  }

  lemma {:induction false} ZerosAreNothing(zeros: nat, m: nat)
    ensures var s := Zeros(zeros) + DigitsOf(m);
            AllDigits(s) && Digits(s) == m
    decreases m
  {
    var s := Zeros(zeros) + DigitsOf(m);
    if m < 10 {
      AllZeros(zeros);
      assert s[..|s| - 1] == Zeros(zeros);
    } else {
      ZerosAreNothing(zeros, m / 10);
      assert s[..|s| - 1] == Zeros(zeros) + DigitsOf(m / 10);
    }
  }

  lemma {:induction false} AllZeros(zeros: nat)
    ensures Digits(Zeros(zeros)) == 0
  {
    if zeros > 0 {
      AllZeros(zeros - 1);
      assert Zeros(zeros)[..zeros - 1] == Zeros(zeros - 1);
    }
  }

  /** Exactly the numerals of 64-bit integers are read, each as its number. */
  lemma AtoiReadsNumerals(s: string, n: int)
    ensures Atoi(s) == Some(n) <==> Numeral(s, n) && INT_MIN <= n <= INT_MAX
  {
    if Atoi(s) == Some(n) { ReadIsNumeral(s, n); }
    if Numeral(s, n) && INT_MIN <= n <= INT_MAX {
      var sign, zeros: nat :| IsSign(sign) && s == sign + Zeros(zeros) + DigitsOf(Abs(n))
                              && (n < 0 ==> sign == "-") && (n > 0 ==> sign != "-");
      NumeralIsRead(sign, zeros, n);
    }
  }

  lemma ReadIsNumeral(s: string, n: int)
    requires Atoi(s) == Some(n)
    ensures Numeral(s, n)
  {
    var body := Unsigned(s);
    var sign := if body == s then "" else [s[0]];
    var zeros := DigitStringShape(body);
    assert s == sign + body;
    hide Digits, DigitsOf, AllDigits;
    assert IsSign(sign);
    assert s == sign + Zeros(zeros) + DigitsOf(Abs(n));
  }

  lemma NumeralIsRead(sign: string, zeros: nat, n: int)
    requires IsSign(sign) && INT_MIN <= n <= INT_MAX
    requires (n < 0 ==> sign == "-") && (n > 0 ==> sign != "-")
    ensures Atoi(sign + Zeros(zeros) + DigitsOf(Abs(n))) == Some(n)
  {
    var body := Zeros(zeros) + DigitsOf(Abs(n));
    ZerosAreNothing(zeros, Abs(n));
    BodyIsRead(sign, body, n);
    hide Atoi, Digits, DigitsOf, AllDigits, Zeros;
    assert sign + Zeros(zeros) + DigitsOf(Abs(n)) == sign + body;
  }

  lemma BodyIsRead(sign: string, body: string, n: int)
    requires IsSign(sign) && INT_MIN <= n <= INT_MAX
    requires (n < 0 ==> sign == "-") && (n > 0 ==> sign != "-")
    requires body != [] && AllDigits(body) && Digits(body) == Abs(n)
    ensures Atoi(sign + body) == Some(n)
  {
    hide Atoi, Digits, AllDigits;
    if sign == "" {
      AtoiUnsigned(body);
      assert sign + body == body;
    } else {
      AtoiSigned(sign[0], body);
      assert sign == [sign[0]];
    }
  }

  lemma AtoiUnsigned(body: string)
    requires body != [] && AllDigits(body)
    ensures Atoi(body) == if Digits(body) <= INT_MAX then Some(Digits(body)) else None
  {
    assert IsDigit(body[0]);
    hide Digits;
  }

  lemma AtoiSigned(sign: char, body: string)
    requires body != [] && AllDigits(body) && (sign == '+' || sign == '-')
    ensures var magnitude: int := Digits(body);
            var n := if sign == '-' then -magnitude else magnitude;
            Atoi([sign] + body) == if INT_MIN <= n <= INT_MAX then Some(n) else None
  {
    assert ([sign] + body)[1..] == body;
    hide Digits;
  }
}
