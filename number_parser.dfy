/** Decimal parsing of a command-line argument (gov_bench.c, parse_number):
    every byte before the terminating NUL is folded in as `result * 10 +
    (c - '0')` in uint64_t, with no check that it is a digit. */
module NumberParser {
  import opened Uint64

  /** One byte of a C string. */
  type Byte = b: int | 0 <= b < 256

  const NUL: Byte := 0
  const ZERO_CHAR: Byte := 48
  const NINE_CHAR: Byte := 57

  /** Plain char is signed on x86-64, the only target of the program: bytes
      from 0x80 on read as negative values. */
  function CharValue(c: Byte): (v: int)
    ensures -128 <= v < 128
    ensures v == c <==> c < 128
  {
    if c < 128 then c else c - 256
  }

  /** `c - '0'`, computed in int. */
  function DigitValue(c: Byte): int {
    CharValue(c) - ZERO_CHAR
  }

  predicate IsDigit(c: Byte) {
    ZERO_CHAR <= c <= NINE_CHAR
  }

  predicate AllDigits(s: seq<Byte>) {
    forall i :: 0 <= i < |s| ==> IsDigit(s[i])
  }

  /** The number of bytes before the first NUL of a C string. */
  function CStringLength(buf: seq<Byte>): (n: nat)
    requires NUL in buf
    ensures n < |buf| && buf[n] == NUL && NUL !in buf[..n]
  {
    if buf[0] == NUL then 0 else
      assert NUL in buf[1..] by { assert buf == [buf[0]] + buf[1..]; }
      var n := 1 + CStringLength(buf[1..]);
      assert buf[..n] == [buf[0]] + buf[1..][..n - 1];
      n
  }

  /** The value parse_number produces for the characters `s`: the left fold
      of its loop body, one uint64_t operation per C operator. */
  function Parse(s: seq<Byte>): U64 {
    if s == [] then 0
    else Add(Mul(Parse(s[..|s| - 1]), 10), Wrap(DigitValue(s[|s| - 1])))
  }

  function Pow10(n: nat): (p: nat)
    ensures p >= 1
  {
    if n == 0 then 1 else 10 * Pow10(n - 1)
  }

  /** The positional reading of `s` in base ten, each byte weighted by its
      place, with no reduction: for a digit string its decimal value. */
  function Positional(s: seq<Byte>): int {
    if s == [] then 0
    else DigitValue(s[0]) * Pow10(|s| - 1) + Positional(s[1..])
  }

  /** parse_number(number): scans up to the NUL, updating `result` in place. */
  method ParseNumber(number: seq<Byte>) returns (result: U64)
    requires NUL in number
    ensures result == Parse(number[..CStringLength(number)])
  {
    ghost var len := CStringLength(number);
    result := 0;
    var i := 0;
    while number[i] != NUL
      invariant 0 <= i <= len
      invariant result == Parse(number[..i])
      decreases len - i
    {
      if i == len {
        assert false;
      }
      assert number[..i + 1][..i] == number[..i];
      result := Mul(result, 10);
      result := Add(result, Wrap(DigitValue(number[i])));
      i := i + 1;
    }
  }

  /** Appending a character multiplies by ten and adds its digit value, both
      modulo 2^64. */
  lemma ParseAppend(s: seq<Byte>, c: Byte)
    ensures Parse(s + [c]) == Wrap(Parse(s) * 10 + DigitValue(c))
  {
    assert (s + [c])[..|s|] == s;
    WrapAdd(Parse(s) * 10, DigitValue(c));
  }

  /** Regrouping one place of a positional sum. */
  lemma ShiftPlace(d: int, p: int, rest: int, last: int)
    ensures d * (10 * p) + (rest * 10 + last) == (d * p + rest) * 10 + last
  {
  }

  /** Positional weighting grows by one place when a byte is appended. */
  lemma {:induction false} PositionalAppend(s: seq<Byte>, c: Byte)
    ensures Positional(s + [c]) == Positional(s) * 10 + DigitValue(c)
  {
    if s == [] {
      assert Positional([c]) == DigitValue(c) * Pow10(0) + Positional([]);
    } else {
      var longer := s + [c];
      assert longer[0] == s[0] && longer[1..] == s[1..] + [c];
      PositionalAppend(s[1..], c);
      var d, p := DigitValue(s[0]), Pow10(|s| - 1);
      assert Positional(longer) == d * (10 * p) + (Positional(s[1..]) * 10 + DigitValue(c));
      ShiftPlace(d, p, Positional(s[1..]), DigitValue(c));
    }
  }

  /** The loop's wrapping fold equals the unreduced positional value reduced
      once: every byte counts, digit or not. */
  lemma {:induction false} ParseIsPositional(s: seq<Byte>)
    ensures Parse(s) == Wrap(Positional(s))
  {
    if s != [] {
      var init, last := s[..|s| - 1], s[|s| - 1];
      assert s == init + [last];
      var p := Positional(init);
      calc {
        Parse(s);
        { ParseAppend(init, last); }
        Wrap(Parse(init) * 10 + DigitValue(last));
        { ParseIsPositional(init); }
        Wrap(Wrap(p) * 10 + DigitValue(last));
        { WrapMulAddLeft(p, 10, DigitValue(last)); }
        Wrap(p * 10 + DigitValue(last));
        { PositionalAppend(init, last); }
        Wrap(Positional(s));
      }
    }
  }

  /** One digit times a place value stays below ten of that place. */
  lemma DigitTimesPlace(d: int, p: nat)
    requires 0 <= d <= 9
    ensures 0 <= d * p <= 9 * p
  {
  }

  /** A digit string of length n denotes a number below 10^n. */
  lemma {:induction false} DigitsBounded(s: seq<Byte>)
    requires AllDigits(s)
    ensures 0 <= Positional(s) < Pow10(|s|)
  {
    if s != [] {
      DigitsBounded(s[1..]);
      var d, p := DigitValue(s[0]), Pow10(|s| - 1);
      assert Positional(s) == d * p + Positional(s[1..]);
      assert Pow10(|s|) == 10 * p;
      DigitTimesPlace(d, p);
    }
  }

  lemma {:induction false} Pow10Monotone(m: nat, n: nat)
    requires m <= n
    ensures Pow10(m) <= Pow10(n)
  {
    if m < n {
      Pow10Monotone(m, n - 1);
    }
  }

  /** 10^19 is below 2^64: nineteen digits never wrap. */
  lemma Pow10Fits()
    ensures Pow10(19) < MODULUS
  {
    assert Pow10(10) == 10_000_000_000;
    assert Pow10(19) == 10_000_000_000_000_000_000;
  }

  /** A digit string is read as its decimal value modulo 2^64, and as the
      decimal value itself when it has at most 19 digits. */
  lemma DecimalValue(s: seq<Byte>)
    requires AllDigits(s)
    ensures Parse(s) == Positional(s) % MODULUS
    ensures |s| <= 19 ==> Parse(s) == Positional(s)
  {
    ParseIsPositional(s);
    DigitsBounded(s);
    if |s| <= 19 {
      Pow10Monotone(|s|, 19);
      Pow10Fits();
    }
  }

  /** The empty string reads as 0. */
  lemma ParseEmpty(number: seq<Byte>)
    requires |number| > 0 && number[0] == NUL
    ensures Parse(number[..CStringLength(number)]) == 0
  {
  }

  /** Non-digits are not rejected: "-1" reads as 2^64 - 29, since '-' is
      folded in as '-' - '0' == -3. */
  lemma MinusOneIsNotRejected()
    ensures Parse([45, 49]) == MODULUS - 29
  {
    assert [45][..0] == [];
    assert Parse([45]) == MODULUS - 3;
    assert [45, 49][..1] == [45];
  }
}
