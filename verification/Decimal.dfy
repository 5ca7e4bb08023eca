/** Decimal printing of 64-bit integers: three copies of one algorithm that fills a byte
    buffer from its end, and the mathematical decimal form they should agree with. */
module Decimal {

  const MIN_INT64 := -0x8000_0000_0000_0000
  const MAX_INT64 := 0x7fff_ffff_ffff_ffff

  predicate Int64(v: int) {
    MIN_INT64 <= v <= MAX_INT64
  }

  /** Negation in two's complement: the minimum is its own negation. */
  function Neg64(v: int): (r: int)
    requires Int64(v)
    ensures Int64(r)
  {
    if v == MIN_INT64 then MIN_INT64 else -v
  }

  // ---------------------------------------------------------------- the decimal form

  function Digit(d: int): char
    requires 0 <= d < 10
  {
    '0' + d as char
  }

  predicate IsDigit(c: char) {
    '0' <= c <= '9'
  }

  function Digits(n: nat): string {
    if n < 10 then [Digit(n)] else Digits(n / 10) + [Digit(n % 10)]
  }

  /** The decimal form of an integer. */
  function Dec(v: int): string {
    if v < 0 then "-" + Digits(-v) else Digits(v)
  }

  predicate AllDigits(s: string) {
    forall i :: 0 <= i < |s| ==> IsDigit(s[i])
  }

  /** The number a string of digits denotes. */
  function Value(s: string): nat
    requires AllDigits(s)
  {
    if s == "" then 0
    else
      var last := s[|s| - 1];
      assert IsDigit(last);
      10 * Value(s[..|s| - 1]) + (last as int - '0' as int)
  }

  datatype Number = Number(value: int) | NotANumber

  /** The integer a decimal form denotes, if it is one. */
  function Parse(s: string): Number {
    if s != "" && s[0] == '-' then
      if s[1..] != "" && AllDigits(s[1..]) then Number(0 - Value(s[1..])) else NotANumber
    else if s != "" && AllDigits(s) then Number(Value(s))
    else NotANumber
  }

  lemma {:induction false} DigitsDenote(n: nat)
    ensures Digits(n) != "" && AllDigits(Digits(n)) && Value(Digits(n)) == n
  {
    if n >= 10 {
      DigitsDenote(n / 10);
      var s := Digits(n);
      assert s[..|s| - 1] == Digits(n / 10);
    }
  }

  /** The decimal form denotes its integer. */
  lemma ParseDec(v: int)
    ensures Parse(Dec(v)) == Number(v)
  {
    DigitsDenote(if v < 0 then -v else v);
    if v < 0 {
      assert Dec(v)[1..] == Digits(-v);
    } else {
      assert IsDigit(Dec(v)[0]);
    }
  }

  // ---------------------------------------------------------------- what the program prints

  /** The printed form of a 64-bit integer: negating the minimum overflows, and the digit
      loop then prints nothing after the sign. */
  function Printed(v: int): string
    requires Int64(v)
  {
    if v == MIN_INT64 then "-" else Dec(v)
  }

  /** Printing can be undone for every value but the minimum, whose form is no number. */
  lemma PrintedParses(v: int)
    requires Int64(v)
    ensures Parse(Printed(v)) == if v == MIN_INT64 then NotANumber else Number(v)
  {
    if v != MIN_INT64 {
      ParseDec(v);
    }
  }

  /** Even with the overflow, different values are printed differently. */
  lemma PrintedInjective(v: int, w: int)
    requires Int64(v) && Int64(w) && Printed(v) == Printed(w)
    ensures v == w
  {
    PrintedParses(v);
    PrintedParses(w);
  }

  // ---------------------------------------------------------------- the loop over the buffer

  function Pow10(k: nat): nat {
    if k == 0 then 1 else 10 * Pow10(k - 1)
  }

  /** `tail` completes the digits of `rest` to those of `n`. */
  ghost predicate Written(n: nat, rest: nat, tail: string) {
    if rest == 0 then 0 < n && tail == Digits(n) else Digits(rest) + tail == Digits(n)
  }

  lemma WriteDigit(n: nat, rest: nat, tail: string)
    requires 0 < rest <= n && Written(n, rest, tail)
    ensures Written(n, rest / 10, [Digit(rest % 10)] + tail)
  {
    if rest < 10 {
      assert Digits(rest) == [Digit(rest % 10)];
    } else {
      assert Digits(rest) + tail == Digits(rest / 10) + ([Digit(rest % 10)] + tail);
    }
  }

  /** The digit loop: fill the buffer from its end with the digits of `v`. Nothing is written
      for a `v` that is not positive. A 64-bit value needs at most 19 of the 32 places. */
  method FillDigits(buf: array<char>, v: int) returns (i: nat)
    requires buf.Length == 32 && Int64(v)
    modifies buf
    ensures 13 <= i <= 32
    ensures buf[i..] == if v <= 0 then "" else Digits(v)
  {
    i := 32;
    var rest := v;
    ghost var k := 19;
    Pow10Values();
    if v > 0 {
      assert Digits(v) + buf[32..] == Digits(v);
    }
    while rest > 0
      invariant 0 <= k <= 19 && i == 13 + k && rest < Pow10(k) && rest <= v
      invariant v <= 0 ==> rest == v && i == 32
      invariant 0 < v ==> 0 <= rest && Written(v, rest, buf[i..])
    {
      WriteDigit(v, rest, buf[i..]);
      ghost var tail := buf[i..];
      i := i - 1;
      buf[i] := '0' + (rest % 10) as char;
      assert buf[i + 1..] == tail;
      assert buf[i..] == [Digit(rest % 10)] + tail;
      rest := rest / 10;
      k := k - 1;
    }
  }

  lemma Pow10Values()
    ensures Pow10(19) == 10_000_000_000_000_000_000
  {
    assert Pow10(5) == 100_000;
    assert Pow10(10) == 10_000_000_000;
    assert Pow10(15) == 1_000_000_000_000_000;
  }

  /** The copies that treat 0 apart before the buffer. */
  method Itoa64(v: int) returns (s: string)
    requires Int64(v)
    ensures s == Printed(v)
  {
    if v == 0 {
      return "0";
    }
    var neg := v < 0;
    var u := v;
    if neg {
      u := Neg64(v);
    }
    var buf := new char[32];
    var i := FillDigits(buf, u);
    ghost var digits := buf[i..];
    if neg {
      i := i - 1;
      buf[i] := '-';
      assert buf[i + 1..] == digits;
      assert buf[i..] == ['-'] + digits;
    }
    s := buf[i..];
  }

  /** The copy that writes the digit of 0 into the buffer. */
  method Itoa64InBuffer(v: int) returns (s: string)
    requires Int64(v)
    ensures s == Printed(v)
  {
    var neg := v < 0;
    var u := v;
    if neg {
      u := Neg64(v);
    }
    var buf := new char[32];
    var i := 32;
    if u == 0 {
      i := i - 1;
      buf[i] := '0';
      assert buf[i..] == "0";
    } else {
      i := FillDigits(buf, u);
    }
    ghost var digits := buf[i..];
    if neg {
      i := i - 1;
      buf[i] := '-';
      assert buf[i + 1..] == digits;
      assert buf[i..] == ['-'] + digits;
    }
    s := buf[i..];
  }
}
