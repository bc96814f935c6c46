/** Decimal numerals shared by the number parser and the date formatter:
    ASCII digit characters, the positional digit sums that task.py builds
    with `sum(...)` generator expressions, and the rendering of a natural
    number as its shortest decimal digit string (Python's `str(n)`). */
module Numerals {

  /** `c.isdigit()`, restricted to ASCII. */
  predicate IsDigit(c: char) {
    '0' <= c <= '9'
  }

  predicate AllDigits(s: string) {
    forall i :: 0 <= i < |s| ==> IsDigit(s[i])
  }

  /** `ord(c) - ord('0')`: total, and a decimal digit exactly on digit characters. */
  function DigitValue(c: char): (d: int)
    ensures IsDigit(c) <==> 0 <= d <= 9
  {
    c as int - '0' as int
  }

  /** The digit character whose value is `d`. */
  function DigitChar(d: int): (c: char)
    requires 0 <= d <= 9
    ensures IsDigit(c) && DigitValue(c) == d
  {
    ('0' as int + d) as char
  }

  function Pow(b: nat, e: nat): (r: nat)
    ensures b > 0 ==> r > 0
  {
    if e == 0 then 1 else b * Pow(b, e - 1)
  }

  /** The positional sum of task.py:60 and task.py:75: the digit `i` places
      from the right contributes `d * 10^i`. */
  function DecimalSum(s: string): int
  {
    if s == [] then 0 else DigitValue(s[0]) * Pow(10, |s| - 1) + DecimalSum(s[1..])
  }

  /** The positional sum equals left-to-right accumulation `v * 10 + d`. */
  lemma {:induction false} DecimalSumAppend(s: string, c: char)
    ensures DecimalSum(s + [c]) == 10 * DecimalSum(s) + DigitValue(c)
    decreases |s|
  {
    if s == [] {
      assert s + [c] == [c];
      assert DecimalSum([c]) == DigitValue(c) * Pow(10, 0) + DecimalSum([]);
    } else {
      var t := s + [c];
      assert t[0] == s[0] && t[1..] == s[1..] + [c];
      DecimalSumAppend(s[1..], c);
      var d := DigitValue(s[0]);
      var p := Pow(10, |s| - 1);
      assert Pow(10, |t| - 1) == 10 * p;
      calc {
        DecimalSum(t);
        d * (10 * p) + DecimalSum(s[1..] + [c]);
        d * (10 * p) + 10 * DecimalSum(s[1..]) + DigitValue(c);
        { assert d * (10 * p) == 10 * (d * p); }
        10 * (d * p + DecimalSum(s[1..])) + DigitValue(c);
      }
    }
  }

  /** A string of n digits has a value in [0, 10^n). */
  lemma {:induction false} DecimalSumBound(s: string)
    requires AllDigits(s)
    ensures 0 <= DecimalSum(s) < Pow(10, |s|)
    decreases |s|
  {
    if s != [] {
      var p, c := s[..|s| - 1], s[|s| - 1];
      assert s == p + [c];
      DecimalSumBound(p);
      DecimalSumAppend(p, c);
      assert Pow(10, |s|) == 10 * Pow(10, |p|);
    }
  }

  /** `str(n)` for a natural number: the shortest decimal digit string. */
  function DecimalString(n: nat): (r: string)
    ensures r != [] && AllDigits(r)
    ensures r[0] == '0' <==> n == 0
  {
    if n < 10 then [DigitChar(n)] else DecimalString(n / 10) + [DigitChar(n % 10)]
  }

  /** Reading back the digits of `str(n)` gives n. */
  lemma {:induction false} DecimalStringRoundTrip(n: nat)
    ensures DecimalSum(DecimalString(n)) == n
  {
    if n < 10 {
      assert DecimalString(n) == [] + [DigitChar(n)];
      DecimalSumAppend([], DigitChar(n));
    } else {
      DecimalStringRoundTrip(n / 10);
      DecimalSumAppend(DecimalString(n / 10), DigitChar(n % 10));
    }
  }

  /** The fractional sum of task.py:61: the digit at index i (from the left)
      contributes `d * 10^-(i+1)`, computed exactly. */
  function FracSum(s: string): real
  {
    if s == [] then 0.0
    else FracSum(s[..|s| - 1]) + DigitValue(s[|s| - 1]) as real / Pow(10, |s|) as real
  }

  /** The fractional sum of digits s is the integer they spell over 10^|s|. */
  lemma {:induction false} FracSumIsRatio(s: string)
    ensures FracSum(s) == DecimalSum(s) as real / Pow(10, |s|) as real
    decreases |s|
  {
    if s != [] {
      var p, c := s[..|s| - 1], s[|s| - 1];
      assert s == p + [c];
      FracSumIsRatio(p);
      DecimalSumAppend(p, c);
      var q := Pow(10, |p|) as real;
      assert Pow(10, |s|) as real == 10.0 * q;
      ShiftedSum(DecimalSum(p) as real, DigitValue(c) as real, q);
    }
  }

  lemma ShiftedSum(a: real, d: real, q: real)
    requires q > 0.0
    ensures a / q + d / (10.0 * q) == (10.0 * a + d) / (10.0 * q)
  {
    assert a / q == (10.0 * a) / (10.0 * q);
  }

  /** The fractional part of a digit string lies in [0, 1). */
  lemma FracSumBound(s: string)
    requires AllDigits(s)
    ensures 0.0 <= FracSum(s) < 1.0
  {
    FracSumIsRatio(s);
    DecimalSumBound(s);
    RatioBelowOne(DecimalSum(s) as real, Pow(10, |s|) as real);
  }

  lemma RatioBelowOne(a: real, q: real)
    requires 0.0 <= a < q
    ensures 0.0 <= a / q < 1.0
  {
    assert (a / q) * q == a;
  }
}
