/**
 * Go's `strconv.Atoi` on a 64-bit platform: an optional sign followed by one
 * or more ASCII decimal digits, whose value must fit in an `int` (int64).
 * `Itoa` is its inverse, used to state the round trip.
 */
module Strconv {
  import opened Wrappers

  const MinInt64: int := -0x8000_0000_0000_0000
  const MaxInt64: int := 0x7FFF_FFFF_FFFF_FFFF

  predicate IsDigit(c: char) { '0' <= c <= '9' }

  predicate AllDigits(s: string)
  {
    forall i :: 0 <= i < |s| ==> IsDigit(s[i])
  }

  /** The value of a string of decimal digits, most significant first. */
  function DigitsValue(s: string): nat
    requires AllDigits(s)
  {
    if |s| == 0 then 0
    else DigitsValue(s[..|s| - 1]) * 10 + (s[|s| - 1] as int - '0' as int)
  }

  /** The text after an optional leading sign. */
  function Unsigned(s: string): string
  {
    if |s| > 0 && (s[0] == '+' || s[0] == '-') then s[1..] else s
  }

  /** The value an optional sign and a run of digits denote, with no range limit. */
  function SignedValue(s: string): int
    requires AllDigits(Unsigned(s))
  {
    if |s| > 0 && s[0] == '-' then 0 - DigitsValue(Unsigned(s)) else DigitsValue(Unsigned(s))
  }

  /**
   * `strconv.Atoi(s)`: a value exactly for an optional sign followed by one
   * or more decimal digits (leading zeros allowed, nothing else around
   * them) whose value fits in an int64; None for the syntax and range
   * errors.
   */
  function Atoi(s: string): (r: Option<int>)
    ensures r.Some? <==> |Unsigned(s)| > 0 && AllDigits(Unsigned(s)) && MinInt64 <= SignedValue(s) <= MaxInt64
    ensures r.Some? ==> r.value == SignedValue(s)
  {
    if |s| == 0 then None
    else
      var negative := s[0] == '-';
      var digits := if s[0] == '+' || s[0] == '-' then s[1..] else s;
      if |digits| == 0 || !AllDigits(digits) then None
      else
        var magnitude: int := DigitsValue(digits);
        var v := if negative then 0 - magnitude else magnitude;
        if MinInt64 <= v <= MaxInt64 then Some(v) else None
  }

  /** Leading zeros and a plus sign are accepted; surrounding text is not. */
  lemma AtoiExamples()
    ensures Atoi("007") == Some(7) && Atoi("+7") == Some(7) && Atoi("-0") == Some(0)
    ensures Atoi("1a") == None && Atoi(" 1") == None && Atoi("1 ") == None && Atoi("--1") == None
  {
    assert Unsigned("007") == "007";
    assert "007"[..2] == "00" && "00"[..1] == "0" && "0"[..0] == "";
    assert DigitsValue("007") == 7;
    assert "7"[..0] == "";
    assert Unsigned("+7") == "7";
    assert Unsigned("-0") == "0";
    assert !IsDigit("1a"[1]) && !IsDigit(" 1"[0]) && !IsDigit("1 "[1]) && !IsDigit(Unsigned("--1")[0]);
  }

  function DigitChar(d: nat): char
    requires d < 10
  {
    ('0' as int + d) as char
  }

  /** Decimal digits of a natural number, without leading zeros. */
  function NatToDigits(n: nat): (r: string)
    ensures |r| > 0 && AllDigits(r)
  {
    if n < 10 then [DigitChar(n)] else NatToDigits(n / 10) + [DigitChar(n % 10)]
  }

  /** `strconv.Itoa(n)`. */
  function Itoa(n: int): (r: string)
    ensures |r| > 0
  {
    if n < 0 then "-" + NatToDigits(-n) else NatToDigits(n)
  }

  /** The rendering of a negative number is a minus sign followed by the digits of its magnitude. */
  lemma ItoaShape(n: int)
    ensures n >= 0 ==> Itoa(n) == NatToDigits(n)
    ensures n < 0 ==> |Itoa(n)| > 1 && Itoa(n)[0] == '-' && Itoa(n)[1..] == NatToDigits(-n)
  {
  }

  lemma {:induction false} NatToDigitsValue(n: nat)
    ensures DigitsValue(NatToDigits(n)) == n
  {
    if n >= 10 {
      NatToDigitsValue(n / 10);
      var s := NatToDigits(n);
      assert s[..|s| - 1] == NatToDigits(n / 10);
    }
  }

  /** Parsing the decimal rendering of any int64 gives the number back. */
  lemma AtoiItoa(n: int)
    requires MinInt64 <= n <= MaxInt64
    ensures Atoi(Itoa(n)) == Some(n)
  {
    var m: nat := if n < 0 then -n else n;
    ItoaShape(n);
    NatToDigitsValue(m);
    AtoiOfDigits(Itoa(n), n < 0, NatToDigits(m));
  }

  /** Atoi of an optional minus sign followed by a run of digits whose value is in range. */
  lemma AtoiOfDigits(s: string, negative: bool, d: string)
    requires |d| > 0 && AllDigits(d)
    requires negative ==> |s| > 1 && s[0] == '-' && s[1..] == d
    requires !negative ==> s == d
    requires MinInt64 <= (if negative then 0 - DigitsValue(d) else DigitsValue(d)) <= MaxInt64
    ensures Atoi(s) == Some(if negative then 0 - DigitsValue(d) else DigitsValue(d))
  {
  }

  /** A number one past the int64 range is a parse error, not a wrapped value. */
  lemma AtoiRangeError()
    ensures Atoi(Itoa(MaxInt64 + 1)) == None
  {
    NatToDigitsValue(MaxInt64 + 1);
  }
}
