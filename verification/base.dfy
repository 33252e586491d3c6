/**
 * Small building blocks shared by the scoreboard model: an optional value,
 * JavaScript's integer arithmetic (truncating division and remainder, the
 * 32-bit truncation of `~~x`), and decimal rendering of integers as
 * JavaScript's Number::toString produces it for integral values.
 */
module Base {

  /** A value that may be absent; stands for TypeScript's `T | null | undefined`. */
  datatype Option<+T> = None | Some(value: T) {

    /** The `??` operator: the value when present, otherwise the fallback. */
    function GetOr(default: T): T {
      match this
      case Some(v) => v
      case None => default
    }
  }

  /** Looks a key up in a map, as `obj[key]` does on a plain object. */
  function Get<K, V>(m: map<K, V>, k: K): (r: Option<V>)
    ensures r.Some? <==> k in m
    ensures r.Some? ==> r.value == m[k]
  {
    if k in m then Some(m[k]) else None
  }

  // ---------------------------------------------------------------------
  // JavaScript arithmetic on integral Numbers
  // ---------------------------------------------------------------------

  /** Quotient rounded toward zero, as `Math.trunc(a / b)` gives it. */
  function TruncDiv(a: int, b: int): int
    requires b > 0
  {
    if a >= 0 then a / b else -((-a) / b)
  }

  /**
   * Number::remainder on integral operands: the sign of the result follows
   * the dividend, so `(-9) % 10` is -9 where Dafny's Euclidean `%` gives 1.
   */
  function TruncRem(a: int, b: int): int
    requires b > 0
  {
    if a >= 0 then a % b else -((-a) % b)
  }

  /**
   * Truncating division and remainder fit together as JavaScript defines
   * them: the remainder keeps the dividend's sign and is smaller than the
   * divisor in magnitude, so the quotient is the one rounded toward zero.
   */
  lemma TruncDivision(a: int, b: int)
    requires b > 0
    ensures a == TruncDiv(a, b) * b + TruncRem(a, b)
    ensures -b < TruncRem(a, b) < b
    ensures a >= 0 ==> TruncRem(a, b) >= 0 && TruncDiv(a, b) >= 0
    ensures a <= 0 ==> TruncRem(a, b) <= 0 && TruncDiv(a, b) <= 0
  {
    var n := if a < 0 then -a else a;
    var q, r := n / b, n % b;
    assert n == q * b + r && 0 <= r < b;
    if q < 0 {
      assert q * b <= -b by { NegativeTimesPositive(q, b); }
      assert false;
    }
    if a < 0 {
      assert a == (-q) * b + (-r);
    }
  }

  lemma NegativeTimesPositive(q: int, b: int)
    requires q < 0 < b
    ensures q * b <= -b
  {
    assert q * b == -((-q) * b);
    assert (-q) * b >= b;
  }

  const TwoTo31: int := 0x8000_0000
  const TwoTo32: int := 0x1_0000_0000

  /** ToInt32 on an integral Number: wrap modulo 2^32 into the signed range. */
  function ToInt32(n: int): (r: int)
    ensures -TwoTo31 <= r < TwoTo31
    ensures (n - r) % TwoTo32 == 0
    ensures -TwoTo31 <= n < TwoTo31 ==> r == n
  {
    var m := n % TwoTo32;
    if m >= TwoTo31 then m - TwoTo32 else m
  }

  // ---------------------------------------------------------------------
  // Decimal strings
  // ---------------------------------------------------------------------

  predicate IsDigit(c: char) {
    '0' <= c <= '9'
  }

  predicate AllDigits(s: string) {
    forall i :: 0 <= i < |s| ==> IsDigit(s[i])
  }

  function DigitChar(d: int): (c: char)
    requires 0 <= d < 10
    ensures IsDigit(c)
  {
    (('0' as int) + d) as char
  }

  function DigitValue(c: char): int {
    c as int - '0' as int
  }

  /**
   * The number a string of decimal digits denotes, most significant digit
   * first (the part of `parseInt` that reads digits).
   */
  function DigitsValue(s: string): int
  {
    if |s| == 0 then 0 else DigitsValue(s[..|s| - 1]) * 10 + DigitValue(s[|s| - 1])
  }

  /** Number::toString of a non-negative integral value. */
  function NatToString(n: nat): (s: string)
    ensures 1 <= |s|
    ensures AllDigits(s)
    ensures |s| > 1 ==> s[0] != '0'
  {
    if n < 10 then [DigitChar(n)] else NatToString(n / 10) + [DigitChar(n % 10)]
  }

  /** Number::toString of an integral value: a minus sign, then the digits. */
  function IntToString(i: int): string
  {
    if i < 0 then "-" + NatToString(-i) else NatToString(i)
  }

  /** Reading the digits back gives the number that was rendered. */
  lemma {:induction false} NatToStringRoundTrip(n: nat)
    ensures DigitsValue(NatToString(n)) == n
  {
    if n >= 10 {
      NatToStringRoundTrip(n / 10);
      var s := NatToString(n);
      assert s[..|s| - 1] == NatToString(n / 10);
    }
  }

  /** Leading zeros do not change the value of a digit string. */
  lemma {:induction false} LeadingZero(s: string)
    ensures DigitsValue("0" + s) == DigitsValue(s)
    decreases |s|
  {
    if |s| > 0 {
      LeadingZero(s[..|s| - 1]);
      assert ("0" + s)[..|"0" + s| - 1] == "0" + s[..|s| - 1];
    }
  }

  /** `s.padStart(2, "0")`. */
  function PadStart2(s: string): (r: string)
    ensures |s| >= 2 ==> r == s
    ensures |s| < 2 ==> |r| == 2
    ensures r[|r| - |s|..] == s
    ensures forall i :: 0 <= i < |r| - |s| ==> r[i] == '0'
  {
    if |s| >= 2 then s else if |s| == 1 then "0" + s else "00"
  }
}
