/**
 * Decimal integers as `str::parse::<i64>` reads them: an optional single
 * leading '+' or '-', then one or more ASCII digits, with a value that fits
 * in a signed 64-bit integer.
 */
module Decimal {
  import opened Bytes

  const I64_MIN: int := -0x8000_0000_0000_0000
  const I64_MAX: int := 0x7FFF_FFFF_FFFF_FFFF

  /** Rust's `i64`. */
  newtype i64 = x: int | -0x8000_0000_0000_0000 <= x <= 0x7FFF_FFFF_FFFF_FFFF

  datatype Option<T> = None | Some(value: T)

  predicate IsDigit(b: u8) {
    ZERO <= b <= ZERO + 9
  }

  function DigitValue(b: u8): (d: nat)
    requires IsDigit(b)
    ensures d < 10
  {
    (b - ZERO) as nat
  }

  predicate AllDigits(ds: seq<u8>) {
    forall i :: 0 <= i < |ds| ==> IsDigit(ds[i])
  }

  predicate IsSign(b: u8) {
    b == PLUS || b == MINUS
  }

  // ---------------------------------------------------------------------
  // Reference definition: the syntax and value of a signed decimal
  // ---------------------------------------------------------------------

  /** The number a digit string denotes, most significant digit first. */
  function DigitsValue(ds: seq<u8>): nat
    requires AllDigits(ds)
  {
    if ds == [] then 0 else DigitsValue(ds[..|ds| - 1]) * 10 + DigitValue(ds[|ds| - 1])
  }

  /** `[+-]?[0-9]+` */
  predicate IsSignedDecimal(s: seq<u8>) {
    if |s| > 0 && IsSign(s[0]) then |s| > 1 && AllDigits(s[1..])
    else |s| > 0 && AllDigits(s)
  }

  function SignedValue(s: seq<u8>): int
    requires IsSignedDecimal(s)
  {
    if s[0] == MINUS then -(DigitsValue(s[1..]) as int)
    else if s[0] == PLUS then DigitsValue(s[1..])
    else DigitsValue(s)
  }

  predicate InI64(x: int) {
    I64_MIN <= x <= I64_MAX
  }

  // ---------------------------------------------------------------------
  // The parser: digits are accumulated left to right and every step is
  // checked for overflow, positive numbers by adding and negative ones by
  // subtracting (so that -9223372036854775808 is reachable)
  // ---------------------------------------------------------------------

  function AccumulatePositive(acc: int, ds: seq<u8>): (r: Option<i64>)
    requires 0 <= acc <= I64_MAX
    ensures r.Some? ==> AllDigits(ds) && r.value as int >= acc
    decreases |ds|
  {
    if ds == [] then Some(acc as i64)
    else if !IsDigit(ds[0]) then None
    else
      var next := acc * 10 + DigitValue(ds[0]);
      if next > I64_MAX then None else AccumulatePositive(next, ds[1..])
  }

  function AccumulateNegative(acc: int, ds: seq<u8>): (r: Option<i64>)
    requires I64_MIN <= acc <= 0
    ensures r.Some? ==> AllDigits(ds) && r.value as int <= acc
    decreases |ds|
  {
    if ds == [] then Some(acc as i64)
    else if !IsDigit(ds[0]) then None
    else
      var next := acc * 10 - DigitValue(ds[0]);
      if next < I64_MIN then None else AccumulateNegative(next, ds[1..])
  }

  /**
   * `str::parse::<i64>` on the bytes of a string. It accepts only signed
   * decimals, and only a leading minus gives a negative number;
   * `ParseI64Correct` pins the result down exactly.
   */
  function ParseI64(s: seq<u8>): (r: Option<i64>)
    ensures r.Some? ==> IsSignedDecimal(s)
    ensures r.Some? && r.value < 0 ==> s[0] == MINUS
  {
    if s == [] then None
    else if IsSign(s[0]) && |s| == 1 then None
    else if s[0] == PLUS then AccumulatePositive(0, s[1..])
    else if s[0] == MINUS then AccumulateNegative(0, s[1..])
    else AccumulatePositive(0, s)
  }

  // ---------------------------------------------------------------------
  // The parser agrees with the reference definition
  // ---------------------------------------------------------------------

  /** Horner evaluation of `ds` continuing from `acc`, with no overflow check. */
  function Horner(acc: int, ds: seq<u8>): (r: int)
    requires AllDigits(ds)
    ensures acc >= 0 ==> r >= acc
    decreases |ds|
  {
    if ds == [] then acc else Horner(acc * 10 + DigitValue(ds[0]), ds[1..])
  }

  lemma {:induction false} HornerSnoc(acc: int, ds: seq<u8>, d: u8)
    requires AllDigits(ds) && IsDigit(d)
    ensures AllDigits(ds + [d])
    ensures Horner(acc, ds + [d]) == Horner(acc, ds) * 10 + DigitValue(d)
    decreases |ds|
  {
    if ds != [] {
      assert (ds + [d])[1..] == ds[1..] + [d];
      HornerSnoc(acc * 10 + DigitValue(ds[0]), ds[1..], d);
    }
  }

  /** Left-to-right accumulation computes the reference value. */
  lemma {:induction false} HornerIsDigitsValue(ds: seq<u8>)
    requires AllDigits(ds)
    ensures Horner(0, ds) == DigitsValue(ds)
    decreases |ds|
  {
    if ds != [] {
      var init := ds[..|ds| - 1];
      HornerIsDigitsValue(init);
      HornerSnoc(0, init, ds[|ds| - 1]);
      assert init + [ds[|ds| - 1]] == ds;
    }
  }

  lemma {:induction false} AccumulatePositiveIsHorner(acc: int, ds: seq<u8>)
    requires 0 <= acc <= I64_MAX
    ensures AccumulatePositive(acc, ds) ==
      if AllDigits(ds) && Horner(acc, ds) <= I64_MAX then Some(Horner(acc, ds) as i64) else None
    decreases |ds|
  {
    if ds != [] && IsDigit(ds[0]) {
      var next := acc * 10 + DigitValue(ds[0]);
      assert AllDigits(ds) <==> AllDigits(ds[1..]) by {
        assert forall i :: 1 <= i < |ds| ==> ds[i] == ds[1..][i - 1];
      }
      if next > I64_MAX {
      } else {
        AccumulatePositiveIsHorner(next, ds[1..]);
      }
    }
  }

  lemma {:induction false} AccumulateNegativeIsHorner(acc: int, ds: seq<u8>)
    requires I64_MIN <= acc <= 0
    ensures AccumulateNegative(acc, ds) ==
      if AllDigits(ds) && -Horner(-acc, ds) >= I64_MIN then Some((-Horner(-acc, ds)) as i64) else None
    decreases |ds|
  {
    if ds != [] && IsDigit(ds[0]) {
      var next := acc * 10 - DigitValue(ds[0]);
      assert AllDigits(ds) <==> AllDigits(ds[1..]) by {
        assert forall i :: 1 <= i < |ds| ==> ds[i] == ds[1..][i - 1];
      }
      assert -next == -acc * 10 + DigitValue(ds[0]);
      if next < I64_MIN {
      } else {
        AccumulateNegativeIsHorner(next, ds[1..]);
      }
    }
  }

  /**
   * The parser accepts exactly the signed decimals whose value lies in the
   * i64 range, and returns that value: an empty string, a lone sign, a
   * second sign, any non-digit and any overflow are rejected.
   */
  lemma ParseI64Correct(s: seq<u8>)
    ensures ParseI64(s) ==
      if IsSignedDecimal(s) && InI64(SignedValue(s)) then Some(SignedValue(s) as i64) else None
  {
    if s != [] && !(IsSign(s[0]) && |s| == 1) {
      if IsSign(s[0]) {
        var ds := s[1..];
        AccumulatePositiveIsHorner(0, ds);
        AccumulateNegativeIsHorner(0, ds);
        if AllDigits(ds) {
          HornerIsDigitsValue(ds);
        }
      } else {
        AccumulatePositiveIsHorner(0, s);
        if AllDigits(s) {
          HornerIsDigitsValue(s);
        }
      }
    }
  }

  /** A signed decimal is plain ASCII. */
  lemma SignedDecimalIsAscii(s: seq<u8>)
    requires IsSignedDecimal(s)
    ensures AllAscii(s)
  {
    forall i | 0 <= i < |s|
      ensures IsAscii(s[i])
    {
      if i > 0 {
        assert s[i] == s[1..][i - 1];
      }
    }
  }

  // ---------------------------------------------------------------------
  // Canonical decimal text of a number (used to state what the parser
  // accepts; the source has no encoder)
  // ---------------------------------------------------------------------

  function DecimalDigits(n: nat): (ds: seq<u8>)
    ensures |ds| > 0 && AllDigits(ds)
  {
    if n < 10 then [ZERO + n as u8]
    else DecimalDigits(n / 10) + [ZERO + (n % 10) as u8]
  }

  /** Shortest decimal, '-' only for negative numbers, never '+'. */
  function SignedDecimal(x: int): seq<u8> {
    if x < 0 then [MINUS] + DecimalDigits(-x) else DecimalDigits(x)
  }

  lemma {:induction false} DecimalDigitsValue(n: nat)
    ensures DigitsValue(DecimalDigits(n)) == n
  {
    if n >= 10 {
      var ds := DecimalDigits(n);
      DecimalDigitsValue(n / 10);
      assert ds[..|ds| - 1] == DecimalDigits(n / 10);
    }
  }

  /** The text of a number is a signed decimal denoting that number. */
  lemma SignedDecimalValue(x: int)
    ensures IsSignedDecimal(SignedDecimal(x))
    ensures SignedValue(SignedDecimal(x)) == x
  {
    var s := SignedDecimal(x);
    if x < 0 {
      DecimalDigitsValue(-x);
      assert s[1..] == DecimalDigits(-x);
    } else {
      DecimalDigitsValue(x);
    }
  }

  /** Every i64 printed in decimal parses back to itself. */
  lemma ParseI64SignedDecimal(x: i64)
    ensures ParseI64(SignedDecimal(x as int)) == Some(x)
  {
    SignedDecimalValue(x as int);
    ParseI64Correct(SignedDecimal(x as int));
  }

  /** The text of a number is ASCII and, in particular, holds no line feed. */
  lemma SignedDecimalHasNoLineFeed(x: int)
    ensures AllAscii(SignedDecimal(x))
    ensures LF !in SignedDecimal(x)
  {
    var s := SignedDecimal(x);
    if x < 0 {
      assert s[1..] == DecimalDigits(-x);
    }
    assert IsSignedDecimal(s);
    SignedDecimalIsAscii(s);
    assert forall i :: 0 <= i < |s| ==> s[i] != LF by {
      forall i | 0 <= i < |s| ensures s[i] != LF {
        if i > 0 { assert s[i] == s[1..][i - 1]; }
      }
    }
  }
}
