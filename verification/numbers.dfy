/**
 * 32-bit signed integers as the Rust code prints them (`i32::to_string`) and
 * parses them (`i32::from_str`, i.e. `from_str_radix(src, 10)`).
 */
module Numbers {
  import opened Wrappers

  const I32Min: int := -0x8000_0000
  const I32Max: int := 0x7fff_ffff

  /** Rust's `i32`. */
  type i32 = x: int | -0x8000_0000 <= x <= 0x7fff_ffff

  predicate IsDigit(c: char) {
    '0' <= c <= '9'
  }

  function DigitChar(d: int): (c: char)
    requires 0 <= d < 10
    ensures IsDigit(c)
  {
    ('0' as int + d) as char
  }

  function DigitValue(c: char): (d: int)
    requires IsDigit(c)
    ensures 0 <= d < 10 && DigitChar(d) == c
  {
    c as int - '0' as int
  }

  /** Decimal digits of `n`, most significant first, without leading zeros. */
  function NatToDecimal(n: nat): (r: string)
    ensures |r| > 0 && forall i :: 0 <= i < |r| ==> IsDigit(r[i])
  {
    if n < 10 then [DigitChar(n)] else NatToDecimal(n / 10) + [DigitChar(n % 10)]
  }

  /** `Display` of an integer: a minus sign for negative values, then the decimal digits. */
  function IntToString(x: int): (r: string)
    ensures |r| > 0 && (r[0] == '-' <==> x < 0)
    ensures forall i :: 0 <= i < |r| ==> IsDigit(r[i]) || (i == 0 && r[i] == '-')
  {
    if x < 0 then "-" + NatToDecimal(-x) else NatToDecimal(x)
  }

  /** Neither a separator nor any other character outside digits and `-` occurs in a decimal. */
  lemma NotInDecimal(x: int, c: char)
    requires !IsDigit(c) && c != '-'
    ensures c !in IntToString(x)
  {
  }

  /** Rust's `IntErrorKind`, the reason `from_str` fails. */
  datatype IntErrorKind = Empty | InvalidDigit | PosOverflow | NegOverflow

  /**
   * One digit of the accumulation loop of `from_str_radix`: the character must be a
   * digit, and `acc * 10 + d` (or `- d` for a negative number) must stay within `i32`.
   */
  function Step(acc: i32, c: char, positive: bool): Result<i32, IntErrorKind> {
    if !IsDigit(c) then Err(InvalidDigit)
    else
      var next := if positive then acc * 10 + DigitValue(c) else acc * 10 - DigitValue(c);
      if I32Min <= next <= I32Max then Ok(next)
      else Err(if positive then PosOverflow else NegOverflow)
  }

  /** The accumulation loop over the digits, left to right, stopping at the first error. */
  function Accumulate(acc: i32, digits: string, positive: bool): (r: Result<i32, IntErrorKind>)
    ensures r.Ok? ==> forall i :: 0 <= i < |digits| ==> IsDigit(digits[i])
    ensures r.Err? ==> r.error != Empty
    decreases |digits|
  {
    if digits == [] then Ok(acc)
    else
      match Step(acc, digits[0], positive)
      case Err(e) => Err(e)
      case Ok(next) =>
        var r := Accumulate(next, digits[1..], positive);
        assert r.Ok? ==> forall i :: 1 <= i < |digits| ==> digits[i] == digits[1..][i - 1];
        r
  }

  /** `i32::from_str`: an optional `+` or `-`, then one or more decimal digits. */
  function ParseI32(src: string): (r: Result<i32, IntErrorKind>)
    ensures r == Err(Empty) <==> src == []
    ensures r.Ok? ==> |src| > 0 && (IsDigit(src[0]) || ((src[0] == '+' || src[0] == '-') && |src| >= 2))
    ensures r.Ok? ==> forall i :: 1 <= i < |src| ==> IsDigit(src[i])
  {
    if src == [] then Err(Empty)
    else if (src[0] == '+' || src[0] == '-') && |src| == 1 then Err(InvalidDigit)
    else if src[0] == '+' || src[0] == '-' then
      var r := Accumulate(0, src[1..], src[0] == '+');
      assert r.Ok? ==> forall i :: 1 <= i < |src| ==> src[i] == src[1..][i - 1];
      r
    else Accumulate(0, src, true)
  }

  /** Accumulating one more digit is one more step after the accumulation of the prefix. */
  lemma {:induction false} AccumulateSnoc(acc: i32, s: string, c: char, positive: bool)
    ensures Accumulate(acc, s + [c], positive) ==
            match Accumulate(acc, s, positive)
            case Ok(v) => Step(v, c, positive)
            case Err(e) => Err(e)
    decreases |s|
  {
    if s == [] {
      assert s + [c] == [c];
    } else {
      assert (s + [c])[0] == s[0];
      assert (s + [c])[1..] == s[1..] + [c];
      match Step(acc, s[0], positive)
      case Err(e) =>
      case Ok(next) => AccumulateSnoc(next, s[1..], c, positive);
    }
  }

  /** Reading back the decimal digits of `n` gives `n` (or `-n`) exactly when it fits in `i32`, and the matching overflow otherwise. */
  lemma {:induction false} AccumulateDecimal(n: nat, positive: bool)
    ensures var v: int := if positive then n else -(n as int);
            Accumulate(0, NatToDecimal(n), positive) ==
            if I32Min <= v <= I32Max then Ok(v)
            else Err(if positive then PosOverflow else NegOverflow)
  {
    if n < 10 {
      assert NatToDecimal(n) == [DigitChar(n)];
    } else {
      AccumulateDecimal(n / 10, positive);
      AccumulateSnoc(0, NatToDecimal(n / 10), DigitChar(n % 10), positive);
    }
  }

  /** `from_str` inverts `to_string` on every `i32`, and reports overflow for every integer outside it. */
  lemma ParseIntToString(x: int)
    ensures ParseI32(IntToString(x)) ==
            if I32Min <= x <= I32Max then Ok(x)
            else Err(if x >= 0 then PosOverflow else NegOverflow)
  {
    if x < 0 {
      var s := "-" + NatToDecimal(-x);
      assert s[1..] == NatToDecimal(-x);
      AccumulateDecimal(-x, false);
    } else {
      AccumulateDecimal(x, true);
    }
  }

  lemma ParseI32RoundTrip(x: i32)
    ensures ParseI32(IntToString(x)) == Ok(x)
  {
    ParseIntToString(x);
  }

  /** Text that starts with anything but a sign or a digit is rejected as an invalid digit. */
  lemma ParseRejectsNonNumeric(src: string)
    requires |src| > 0 && !IsDigit(src[0]) && src[0] != '+' && src[0] != '-'
    ensures ParseI32(src) == Err(InvalidDigit)
  {
  }
}
