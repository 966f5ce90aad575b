/** Decimal numbers as text: what they denote, and the digits of a number. */
module Decimals {
  import opened Wrappers
  import opened Characters

  function Pow10(n: nat): (p: nat)
    ensures p >= 1
  {
    if n == 0 then 1 else 10 * Pow10(n - 1)
  }

  predicate IsDigit(c: char) {
    '0' <= c <= '9'
  }

  predicate AllDigits(s: string) {
    forall i :: 0 <= i < |s| ==> IsDigit(s[i])
  }

  function DigitValue(c: char): nat
    requires IsDigit(c)
  {
    c as int - '0' as int
  }

  function Digit(n: nat): (c: char)
    requires n < 10
    ensures IsDigit(c) && DigitValue(c) == n
  {
    ('0' as int + n) as char
  }

  /** The number a string of digits denotes. */
  function NatOf(s: string): nat
    requires AllDigits(s)
  {
    if s == "" then 0 else 10 * NatOf(s[..|s| - 1]) + DigitValue(s[|s| - 1])
  }

  lemma {:induction false} NatOfJoined(a: string, b: string)
    requires AllDigits(a) && AllDigits(b)
    ensures AllDigits(a + b) && NatOf(a + b) == NatOf(a) * Pow10(|b|) + NatOf(b)
    decreases |b|
  {
    if b == "" {
      assert a + b == a;
    } else {
      var front := b[..|b| - 1];
      assert (a + b)[..|a + b| - 1] == a + front;
      NatOfJoined(a, front);
      Shift(NatOf(a), Pow10(|front|), NatOf(front), DigitValue(b[|b| - 1]));
    }
  }

  lemma Shift(a: nat, p: nat, b: nat, d: nat)
    ensures 10 * (a * p + b) + d == a * (10 * p) + (10 * b + d)
  {
  }

  /** The digits of a number, without leading zeros. */
  function Digits(n: nat): string {
    if n < 10 then [Digit(n)] else Digits(n / 10) + [Digit(n % 10)]
  }

  /** Its last digits, as many as are asked for. */
  function LastDigits(n: nat, count: nat): (s: string)
    ensures |s| == count
  {
    if count == 0 then "" else LastDigits(n / 10, count - 1) + [Digit(n % 10)]
  }

  lemma {:induction false} DigitsReadBack(n: nat)
    ensures Digits(n) != "" && AllDigits(Digits(n)) && NatOf(Digits(n)) == n
  {
    if n >= 10 {
      DigitsReadBack(n / 10);
      assert Digits(n)[..|Digits(n)| - 1] == Digits(n / 10);
    } else {
      assert Digits(n)[..0] == "";
    }
  }

  lemma {:induction false} LastDigitsReadBack(n: nat, count: nat)
    requires n < Pow10(count)
    ensures AllDigits(LastDigits(n, count)) && NatOf(LastDigits(n, count)) == n
    decreases count
  {
    if count > 0 {
      LastDigitsReadBack(n / 10, count - 1);
      assert LastDigits(n, count)[..count - 1] == LastDigits(n / 10, count - 1);
    }
  }

  /** The number units / 10^places. */
  datatype Decimal = Decimal(units: nat, places: nat)

  /** Digits, and after a point more digits, which may be missing. */
  function ParseDecimal(s: string): Option<Decimal> {
    match FirstChar(s, '.', 0)
    case None => if s != "" && AllDigits(s) then Some(Decimal(NatOf(s), 0)) else None
    case Some(dot) => OfParts(s[..dot], s[dot + 1..])
  }

  function OfParts(whole: string, fraction: string): Option<Decimal> {
    if whole != "" && AllDigits(whole) && AllDigits(fraction) then
      AllDigitsJoined(whole, fraction);
      Some(Decimal(NatOf(whole + fraction), |fraction|))
    else None
  }

  lemma AllDigitsJoined(a: string, b: string)
    requires AllDigits(a) && AllDigits(b)
    ensures AllDigits(a + b)
  {
  }

  lemma ParseWhole(whole: string)
    requires whole != "" && AllDigits(whole)
    ensures ParseDecimal(whole) == Some(Decimal(NatOf(whole), 0))
  {
    FirstCharIsFirst(whole, '.', 0, |whole|);
  }

  /** What is before the dot and behind it. */
  lemma AroundDot(whole: string, fraction: string)
    ensures var s := whole + "." + fraction;
            |whole| < |s| && s[|whole|] == '.' && s[..|whole|] == whole && s[|whole| + 1..] == fraction
  {
  }

  lemma DotFound(whole: string, fraction: string)
    requires AllDigits(whole)
    ensures FirstChar(whole + "." + fraction, '.', 0) == Some(|whole|)
  {
    var s := whole + "." + fraction;
    forall i | 0 <= i < |whole| ensures s[i] != '.' {
      assert s[i] == whole[i] && IsDigit(whole[i]);
    }
    FirstCharIsFirst(s, '.', 0, |whole|);
  }

  lemma ParsesParts(whole: string, fraction: string, s: string)
    requires FirstChar(s, '.', 0) == Some(|whole|) && s[..|whole|] == whole && s[|whole| + 1..] == fraction
    ensures ParseDecimal(s) == OfParts(whole, fraction)
  {
  }

  lemma PartsDenote(whole: string, fraction: string)
    requires whole != "" && AllDigits(whole) && AllDigits(fraction)
    ensures OfParts(whole, fraction) == Some(Decimal(NatOf(whole) * Pow10(|fraction|) + NatOf(fraction), |fraction|))
  {
    NatOfJoined(whole, fraction);
  }

  lemma ParseParts(whole: string, fraction: string)
    requires whole != "" && AllDigits(whole) && AllDigits(fraction)
    ensures ParseDecimal(whole + "." + fraction)
         == Some(Decimal(NatOf(whole) * Pow10(|fraction|) + NatOf(fraction), |fraction|))
  {
    AroundDot(whole, fraction);
    DotFound(whole, fraction);
    ParsesParts(whole, fraction, whole + "." + fraction);
    PartsDenote(whole, fraction);
  }
}
