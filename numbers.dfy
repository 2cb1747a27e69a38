/**
 * Decimal integer parsing as done by Rust's `str::parse` for `i32`, `i64`, `u32` and `u64`
 * (the standard library's `from_str_radix` with radix 10), which the coercer calls.
 *
 * The library reads an optional sign, then folds the digits left to right with checked
 * arithmetic and gives up at the first non-digit or the first overflow. `ParseInt` is that
 * procedure; `IsIntLiteral` and `LiteralValue` say independently which texts are integers and
 * what they denote, and `ParseIntCorrect` proves the two agree.
 */
module Numbers {
  import opened Wrappers

  predicate IsDigit(c: char) {
    '0' <= c <= '9'
  }

  function DigitValue(c: char): (d: nat)
    requires IsDigit(c)
    ensures d <= 9
  {
    c as int - '0' as int
  }

  predicate AllDigits(s: string) {
    forall i :: 0 <= i < |s| ==> IsDigit(s[i])
  }

  /** The number a run of decimal digits denotes, most significant digit first. */
  function DecimalValue(s: string): nat
    requires AllDigits(s)
  {
    if s == [] then 0 else DecimalValue(s[..|s| - 1]) * 10 + DigitValue(s[|s| - 1])
  }

  /** A decimal integer literal as the library accepts it: an optional `+`, or a `-` when the
      target type is signed, followed by at least one ASCII digit, and nothing else. */
  predicate IsIntLiteral(s: string, signed: bool) {
    |s| > 0 &&
    if s[0] == '+' || (signed && s[0] == '-') then |s| > 1 && AllDigits(s[1..]) else AllDigits(s)
  }

  /** The integer an integer literal denotes. */
  function LiteralValue(s: string, signed: bool): int
    requires IsIntLiteral(s, signed)
  {
    if signed && s[0] == '-' then -(DecimalValue(s[1..]) as int)
    else if s[0] == '+' then DecimalValue(s[1..])
    else DecimalValue(s)
  }

  /** The library's loop for a non-negative result: after each digit `acc * 10 + digit`, failing
      on a non-digit or once the accumulator passes `hi`. Written over the prefix read so far. */
  function AccumulateUp(s: string, hi: int): (r: Option<int>)
    requires 0 <= hi
    ensures r.Some? ==> 0 <= r.value <= hi
  {
    if s == [] then Some(0)
    else match AccumulateUp(s[..|s| - 1], hi)
      case None => None
      case Some(acc) =>
        var c := s[|s| - 1];
        if !IsDigit(c) || acc * 10 + DigitValue(c) > hi then None else Some(acc * 10 + DigitValue(c))
  }

  /** The library's loop for a negative sign: `acc * 10 - digit`, failing below `lo`. */
  function AccumulateDown(s: string, lo: int): (r: Option<int>)
    requires lo <= 0
    ensures r.Some? ==> lo <= r.value <= 0
  {
    if s == [] then Some(0)
    else match AccumulateDown(s[..|s| - 1], lo)
      case None => None
      case Some(acc) =>
        var c := s[|s| - 1];
        if !IsDigit(c) || acc * 10 - DigitValue(c) < lo then None else Some(acc * 10 - DigitValue(c))
  }

  /** `str::parse` into an integer type whose values are `lo..=hi`; the type is signed when `lo < 0`. */
  function ParseInt(s: string, lo: int, hi: int): (r: Option<int>)
    requires lo <= 0 < hi
    ensures r.Some? ==> lo <= r.value <= hi
  {
    if s == [] then None
    else if (s[0] == '+' || s[0] == '-') && |s| == 1 then None
    else if s[0] == '+' then AccumulateUp(s[1..], hi)
    else if s[0] == '-' && lo < 0 then AccumulateDown(s[1..], lo)
    else AccumulateUp(s, hi)
  }

  /** Checking the bound after every digit fails exactly when the whole value is out of bounds. */
  lemma {:induction false} AccumulateUpCorrect(s: string, hi: int)
    requires 0 <= hi
    ensures AccumulateUp(s, hi) == if AllDigits(s) && DecimalValue(s) <= hi then Some(DecimalValue(s)) else None
  {
    if s != [] {
      var p := s[..|s| - 1];
      AccumulateUpCorrect(p, hi);
      assert AllDigits(s) <==> AllDigits(p) && IsDigit(s[|s| - 1]) by {
        if AllDigits(p) && IsDigit(s[|s| - 1]) {
          forall i | 0 <= i < |s| ensures IsDigit(s[i]) {
            if i < |s| - 1 { assert p[i] == s[i]; }
          }
        }
      }
    }
  }

  lemma {:induction false} AccumulateDownCorrect(s: string, lo: int)
    requires lo <= 0
    ensures AccumulateDown(s, lo) == if AllDigits(s) && -(DecimalValue(s) as int) >= lo then Some(-(DecimalValue(s) as int)) else None
  {
    if s != [] {
      var p := s[..|s| - 1];
      AccumulateDownCorrect(p, lo);
      assert AllDigits(s) <==> AllDigits(p) && IsDigit(s[|s| - 1]) by {
        if AllDigits(p) && IsDigit(s[|s| - 1]) {
          forall i | 0 <= i < |s| ensures IsDigit(s[i]) {
            if i < |s| - 1 { assert p[i] == s[i]; }
          }
        }
      }
    }
  }

  /** `str::parse` succeeds exactly on integer literals whose value fits the type, and then
      yields that value; every other text (empty, `null`, a fraction, an overflow, a `-` for an
      unsigned type) fails. */
  lemma ParseIntCorrect(s: string, lo: int, hi: int)
    requires lo <= 0 < hi
    ensures ParseInt(s, lo, hi) ==
      if IsIntLiteral(s, lo < 0) && lo <= LiteralValue(s, lo < 0) <= hi then Some(LiteralValue(s, lo < 0)) else None
  {
    if s != [] {
      AccumulateUpCorrect(s, hi);
      AccumulateUpCorrect(s[1..], hi);
      AccumulateDownCorrect(s[1..], lo);
      assert !IsDigit(s[0]) ==> !AllDigits(s);
    }
  }
}
