/** Exact arithmetic of the device bridge: traffic shaping rates and losses, sensor values, and densities. */
module RuntimeNumbers {
  import opened Wrappers
  import opened Bytes
  import opened Characters
  import opened Decimals

  // ---------------------------------------------------------------------------------------------
  // Rates
  // ---------------------------------------------------------------------------------------------

  function LowerAll(s: string): string {
    seq(|s|, i requires 0 <= i < |s| => Lower(s[i]))
  }

  predicate EndsWith(s: string, suffix: string) {
    |s| >= |suffix| && s[|s| - |suffix|..] == suffix
  }

  /** A number and the kilobits its unit stands for. */
  datatype Quantity = Quantity(number: string, scale: u64)

  function SplitUnit(token: string): Option<Quantity> {
    var s := LowerAll(token);
    if EndsWith(s, "kbit") then Some(Quantity(s[..|s| - 4], 1))
    else if EndsWith(s, "mbit") then Some(Quantity(s[..|s| - 4], 1_000))
    else if EndsWith(s, "gbit") then Some(Quantity(s[..|s| - 4], 1_000_000))
    else None
  }

  // Checked arithmetic: None on overflow.

  function Checked(n: nat): Option<u64> {
    if n <= U64_MAX then Some(n) else None
  }

  function CheckedPow10(n: nat): Option<u64> {
    if n > U32_MAX then None else Checked(Pow10(n))
  }

  function ParseNat(s: string): Option<u64>
    requires AllDigits(s)
  {
    Checked(NatOf(s))
  }

  /** The rate a token denotes, in kilobits per second, if it is whole and every intermediate value fits. */
  function RateKbps(token: string): Option<u64> {
    match SplitUnit(token)
    case None => None
    case Some(Quantity(number, scale)) =>
      var dot := FirstChar(number, '.', 0);
      var whole := if dot.Some? then number[..dot.value] else number;
      var fraction := if dot.Some? then number[dot.value + 1..] else "";
      if whole == "" || !AllDigits(whole) || !AllDigits(fraction) then None
      else ScaledRate(whole, fraction, scale)
  }

  function ScaledRate(whole: string, fraction: string, scale: u64): Option<u64>
    requires AllDigits(whole) && AllDigits(fraction)
  {
    match CheckedPow10(|fraction|)
    case None => None
    case Some(denominator) =>
      match ParseNat(whole)
      case None => None
      case Some(w) =>
        match if fraction == "" then Some(0) else ParseNat(fraction)
        case None => None
        case Some(f) => WholeRate(w, f, denominator, scale)
  }

  function WholeRate(whole: u64, fraction: u64, denominator: u64, scale: u64): Option<u64>
    requires denominator >= 1
  {
    var w: nat, f: nat, d: nat, s: nat := whole, fraction, denominator, scale;
    if w * d > U64_MAX || w * d + f > U64_MAX || (w * d + f) * s > U64_MAX then None
    else
      var scaled := (w * d + f) * s;
      QuotientFits(scaled, d);
      if scaled % d == 0 then Some(scaled / d) else None
  }

  lemma QuotientFits(a: nat, d: nat)
    requires d >= 1
    ensures 0 <= a / d <= a
  {
  }

  lemma WholeRateExactly(whole: u64, fraction: u64, denominator: u64, scale: u64, k: u64)
    requires denominator >= 1 && scale >= 1
    ensures var units := whole as int * denominator + fraction;
            WholeRate(whole, fraction, denominator, scale) == Some(k)
            <==> units * scale <= U64_MAX && k as int * denominator == units * scale
  {
    var units := whole as int * denominator + fraction;
    assert units <= units * scale by {
      Grows(units, scale);
    }
    var scaled := units * scale;
    Quotient(scaled, denominator, k);
  }

  lemma Grows(a: nat, b: nat)
    requires b >= 1
    ensures a <= a * b
  {
  }

  lemma Quotient(a: nat, d: nat, k: nat)
    requires d >= 1
    ensures k * d == a <==> a % d == 0 && a / d == k
  {
    assert a == d * (a / d) + a % d;
    if k * d == a {
      Unique(d, k, a / d, a % d);
    }
  }

  lemma Unique(d: nat, k: nat, q: nat, r: nat)
    requires d >= 1 && r < d && k * d == d * q + r
    ensures k == q && r == 0
  {
    Apart(k, q, d);
    Apart(q, k, d);
  }

  lemma Apart(a: nat, b: nat, d: nat)
    ensures a > b ==> a * d >= b * d + d
  {
    if a > b {
      assert a * d == b * d + (a - b) * d;
      Grows(d, a - b);
    }
  }

  lemma {:induction false} LargePower(n: nat)
    requires n >= 20
    ensures Pow10(n) > U64_MAX
    decreases n
  {
    if n == 20 {
      assert Pow10(10) == 10_000_000_000;
      PowerSum(10, 10);
    } else {
      LargePower(n - 1);
    }
  }

  lemma {:induction false} PowerSum(a: nat, b: nat)
    ensures Pow10(a + b) == Pow10(a) * Pow10(b)
    decreases a
  {
    if a > 0 {
      PowerSum(a - 1, b);
    }
  }

  /** The units of a decimal given by the digits in front of its point and behind it. */
  function Units(whole: string, fraction: string): nat
    requires AllDigits(whole) && AllDigits(fraction)
  {
    NatOf(whole) * Pow10(|fraction|) + NatOf(fraction)
  }

  lemma ScaledRateExactly(whole: string, fraction: string, scale: u64, k: u64)
    requires AllDigits(whole) && AllDigits(fraction) && scale >= 1
    ensures ScaledRate(whole, fraction, scale) == Some(k)
            <==> && Pow10(|fraction|) <= U64_MAX && Units(whole, fraction) * scale <= U64_MAX
                 && k as int * Pow10(|fraction|) == Units(whole, fraction) * scale
  {
    if |fraction| > U32_MAX {
      LargePower(|fraction|);
    } else if Pow10(|fraction|) <= U64_MAX {
      PartsFit(NatOf(whole), Pow10(|fraction|), NatOf(fraction), scale);
      if NatOf(whole) <= U64_MAX && NatOf(fraction) <= U64_MAX {
        WholeRateExactly(NatOf(whole), NatOf(fraction), Pow10(|fraction|), scale, k);
      }
    }
  }

  lemma PartsFit(w: nat, d: nat, f: nat, s: nat)
    requires d >= 1 && s >= 1
    ensures w <= (w * d + f) * s && f <= (w * d + f) * s
  {
    Grows(w, d);
    Grows(w * d + f, s);
  }

  /**
   A rate is recognised exactly when its unit is known, its number is well formed, the power of ten of
   its fraction and the scaled units fit in 64 bits, and it is a whole number of kilobits; it is that
   number, so no rounding ever happens.
   */
  lemma RateExactly(token: string, k: u64)
    ensures RateKbps(token) == Some(k)
            <==> match SplitUnit(token)
                 case None => false
                 case Some(Quantity(number, scale)) =>
                   match ParseDecimal(number)
                   case None => false
                   case Some(Decimal(units, places)) =>
                     && Pow10(places) <= U64_MAX && units * scale <= U64_MAX
                     && k as int * Pow10(places) == units * scale
  {
    match SplitUnit(token)
    case None =>
    case Some(Quantity(number, scale)) =>
      var dot := FirstChar(number, '.', 0);
      if dot.None? {
        NumberExactly(number, number, "", scale, k);
      } else {
        NumberExactly(number, number[..dot.value], number[dot.value + 1..], scale, k);
      }
  }

  lemma NumberExactly(number: string, whole: string, fraction: string, scale: u64, k: u64)
    requires scale >= 1
    requires match FirstChar(number, '.', 0)
             case None => whole == number && fraction == ""
             case Some(dot) => whole == number[..dot] && fraction == number[dot + 1..]
    ensures (whole != "" && AllDigits(whole) && AllDigits(fraction) && ScaledRate(whole, fraction, scale) == Some(k))
            <==> match ParseDecimal(number)
                 case None => false
                 case Some(Decimal(units, places)) =>
                   && Pow10(places) <= U64_MAX && units * scale <= U64_MAX
                   && k as int * Pow10(places) == units * scale
  {
    if whole != "" && AllDigits(whole) && AllDigits(fraction) {
      ScaledRateExactly(whole, fraction, scale, k);
      NatOfJoined(whole, fraction);
      assert ParseDecimal(number) == Some(Decimal(Units(whole, fraction), |fraction|));
    }
  }

  /** A word of lower-case letters, spelled in any case. */
  predicate Spelled(text: string, word: string) {
    |text| == |word| && forall i :: 0 <= i < |word| ==> text[i] == word[i] || text[i] as int + 32 == word[i] as int
  }

  predicate IsLowerWord(word: string) {
    forall i :: 0 <= i < |word| ==> 'a' <= word[i] <= 'z'
  }

  lemma SpelledExactly(text: string, word: string)
    requires IsLowerWord(word)
    ensures LowerAll(text) == word <==> Spelled(text, word)
  {
    if Spelled(text, word) {
      assert forall i :: 0 <= i < |word| ==> Lower(text[i]) == word[i];
    } else if |text| == |word| {
      var i :| 0 <= i < |word| && text[i] != word[i] && text[i] as int + 32 != word[i] as int;
      assert LowerAll(text)[i] != word[i];
    }
  }

  /** A number of kilobits is what a decimal times a scale comes to, if it is whole and everything fits. */
  ghost predicate Comes(number: string, scale: nat, k: u64) {
    match ParseDecimal(number)
    case None => false
    case Some(Decimal(units, places)) =>
      && Pow10(places) <= 0xFFFF_FFFF_FFFF_FFFF && units * scale <= 0xFFFF_FFFF_FFFF_FFFF
      && k as int * Pow10(places) == units * scale
  }

  /** Lower-casing changes no number, and makes none of what is none. */
  lemma NumbersHaveNoCase(number: string)
    ensures ParseDecimal(LowerAll(number)) == ParseDecimal(number)
  {
    var s := LowerAll(number);
    assert forall c: char :: Lower(c) == '.' <==> c == '.';
    assert forall c: char :: IsDigit(Lower(c)) || IsDigit(c) ==> Lower(c) == c;
    var dot := FirstChar(number, '.', 0);
    NoneBeforeFirst(number, '.', 0);
    FirstCharIsFirst(s, '.', 0, if dot.Some? then dot.value else |s|);
    match dot
    case None => SameDigits(number, s);
    case Some(at) =>
      assert LowerAll(number[..at]) == s[..at] && LowerAll(number[at + 1..]) == s[at + 1..];
      SameDigits(number[..at], s[..at]);
      SameDigits(number[at + 1..], s[at + 1..]);
  }

  lemma SameDigits(text: string, lower: string)
    requires lower == LowerAll(text)
    ensures AllDigits(lower) <==> AllDigits(text)
    ensures AllDigits(text) ==> lower == text
  {
    assert forall c: char :: IsDigit(Lower(c)) <==> IsDigit(c);
    assert forall i :: 0 <= i < |text| ==> (IsDigit(lower[i]) <==> IsDigit(text[i]));
  }

  /** Kilobits, megabits and gigabits, in any case; nothing else is a rate. */
  lemma RatesByUnit(number: string, unit: string, k: u64)
    requires |unit| == 4
    ensures RateKbps(number + unit) == Some(k) <==>
            || (Spelled(unit, "kbit") && Comes(number, 1, k))
            || (Spelled(unit, "mbit") && Comes(number, 1_000, k))
            || (Spelled(unit, "gbit") && Comes(number, 1_000_000, k))
  {
    RateExactly(number + unit, k);
    NumbersHaveNoCase(number);
    UnitIsSplit(number, unit);
    SpelledExactly(unit, "kbit");
    SpelledExactly(unit, "mbit");
    SpelledExactly(unit, "gbit");
  }

  lemma UnitIsSplit(number: string, unit: string)
    requires |unit| == 4
    ensures SplitUnit(number + unit)
         == if LowerAll(unit) == "kbit" then Some(Quantity(LowerAll(number), 1))
            else if LowerAll(unit) == "mbit" then Some(Quantity(LowerAll(number), 1_000))
            else if LowerAll(unit) == "gbit" then Some(Quantity(LowerAll(number), 1_000_000))
            else None
  {
    var s := LowerAll(number + unit);
    assert s == LowerAll(number) + LowerAll(unit);
    assert s[|s| - 4..] == LowerAll(unit) && s[..|s| - 4] == LowerAll(number);
  }

  lemma ShortTokensAreNoRates(token: string)
    requires |token| < 4
    ensures RateKbps(token) == None
  {
  }

  /** The field whose name is spelled "rate", and that is the first one. */
  lemma RateFieldIsNamed(before: seq<string>, name: string, after: seq<string>)
    requires Spelled(name, "rate") && forall i :: 0 <= i < |before| ==> !Spelled(before[i], "rate")
    ensures RateField(before, 0) == None
    ensures RateField(before + [name] + after, 0) == Some(|before|)
  {
    var fields := before + [name] + after;
    SpelledExactly(name, "rate");
    forall i | 0 <= i < |before| ensures LowerAll(fields[i]) != "rate" && LowerAll(before[i]) != "rate" {
      assert fields[i] == before[i];
      SpelledExactly(before[i], "rate");
    }
    assert fields[|before|] == name;
  }

  /** The rate that follows the first field named "rate", in the fields of the shaper's report. */
  method NetemRateKbps(fields: seq<string>) returns (rate: Option<u64>)
    ensures rate == match RateField(fields, 0)
                    case None => None
                    case Some(i) => if i + 1 < |fields| then RateKbps(fields[i + 1]) else None
  {
    var next := 0;
    while next < |fields|
      invariant next <= |fields| && RateField(fields, 0) == RateField(fields, next)
    {
      var field := fields[next];
      next := next + 1;
      if LowerAll(field) == "rate" {
        return if next < |fields| then RateKbps(fields[next]) else None;
      }
    }
    return None;
  }

  function RateField(fields: seq<string>, from: nat): (r: Option<nat>)
    ensures r.Some? ==> from <= r.value < |fields| && LowerAll(fields[r.value]) == "rate"
    ensures forall i :: from <= i < (if r.Some? then r.value else |fields|) ==> LowerAll(fields[i]) != "rate"
    decreases |fields| - from
  {
    if from >= |fields| then None
    else if LowerAll(fields[from]) == "rate" then Some(from)
    else RateField(fields, from + 1)
  }

  // ---------------------------------------------------------------------------------------------
  // Losses
  // ---------------------------------------------------------------------------------------------

  /** The fraction that is left after zeros have been taken off its end. */
  ghost predicate Trimmed(fraction: string, hundredths: nat) {
    && |fraction| <= 2 && AllDigits(fraction)
    && NatOf(fraction) * Pow10(2 - |fraction|) == hundredths
  }

  lemma TrimZero(fraction: string, hundredths: nat)
    requires Trimmed(fraction, hundredths) && |fraction| > 0 && fraction[|fraction| - 1] == '0'
    ensures Trimmed(fraction[..|fraction| - 1], hundredths)
  {
    var n, p := NatOf(fraction[..|fraction| - 1]), Pow10(2 - |fraction|);
    assert (10 * n) * p == n * (10 * p);
  }

  lemma LossParses(whole: string, fraction: string, n: nat)
    requires whole != "" && AllDigits(whole) && NatOf(whole) == n / 100 && Trimmed(fraction, n % 100)
    ensures Units(whole, fraction) * 100 == n * Pow10(|fraction|)
  {
    assert Pow10(0) == 1 && Pow10(1) == 10 && Pow10(2) == 100;
    var w, f := NatOf(whole), NatOf(fraction);
    assert n == 100 * w + n % 100;
    if |fraction| == 0 {
      assert f == 0;
    } else if |fraction| == 1 {
      assert f * 10 == n % 100;
    } else {
      assert f == n % 100;
    }
  }

  /**
   Basis points as a percentage: the text denotes exactly a hundredth of the number, in its shortest
   form, without a point when it is whole and without zeros at the end of a fraction.
   */
  method NetemLoss(basisPoints: u16) returns (s: string)
    ensures |s| > 0 && s[|s| - 1] == '%' && ParseDecimal(s[..|s| - 1]).Some?
    ensures var d := ParseDecimal(s[..|s| - 1]).value;
            && d.units * 100 == basisPoints * Pow10(d.places)
            && (d.places > 0 ==> s[|s| - 2] != '0') && (d.places == 0 ==> '.' !in s)
  {
    var value := Digits(basisPoints / 100) + "." + LastDigits(basisPoints % 100, 2);
    ghost var whole, fraction := Digits(basisPoints / 100), LastDigits(basisPoints % 100, 2);
    DigitsReadBack(basisPoints / 100);
    assert Pow10(1) == 10 && Pow10(2) == 100;
    LastDigitsReadBack(basisPoints % 100, 2);
    while value[|value| - 1] == '0'
      invariant value == whole + "." + fraction && Trimmed(fraction, basisPoints % 100)
      decreases |value|
    {
      TrimZero(fraction, basisPoints % 100);
      value := value[..|value| - 1];
      fraction := fraction[..|fraction| - 1];
    }
    LossParses(whole, fraction, basisPoints);
    if value[|value| - 1] == '.' {
      value := value[..|value| - 1];
      assert value == whole;
      ParseWhole(whole);
    } else {
      ParseParts(whole, fraction);
    }
    s := value + "%";
    assert s[..|s| - 1] == value;
  }

  // ---------------------------------------------------------------------------------------------
  // Sensor values
  // ---------------------------------------------------------------------------------------------

  type i64 = x: int | -0x8000_0000_0000_0000 <= x < 0x8000_0000_0000_0000

  function Magnitude(value: i64): u64 {
    var v: int := value;
    if v < 0 then -v else v
  }

  /** Millionths with six decimals and a sign. */
  function FormatMicrounits(value: i64): string {
    var text := Digits(Magnitude(value) / 1_000_000) + "." + LastDigits(Magnitude(value) % 1_000_000, 6);
    if value < 0 then "-" + text else text
  }

  function ParseSigned(s: string): Option<int> {
    match ParseDecimal(if s != "" && s[0] == '-' then s[1..] else s)
    case Some(Decimal(units, places)) =>
      var n: int := units;
      if places == 6 then Some(if s[0] == '-' then -n else n) else None
    case None => None
  }

  lemma MagnitudeParses(m: nat)
    ensures var text := Digits(m / 1_000_000) + "." + LastDigits(m % 1_000_000, 6);
            text != "" && IsDigit(text[0]) && ParseDecimal(text) == Some(Decimal(m, 6))
  {
    var whole, fraction := Digits(m / 1_000_000), LastDigits(m % 1_000_000, 6);
    DigitsReadBack(m / 1_000_000);
    SixPlaces();
    LastDigitsReadBack(m % 1_000_000, 6);
    ParseParts(whole, fraction);
    StartsWithDigit(whole, fraction);
  }

  lemma SixPlaces()
    ensures Pow10(6) == 1_000_000
  {
    assert Pow10(3) == 1000;
  }

  lemma StartsWithDigit(whole: string, fraction: string)
    requires whole != "" && AllDigits(whole)
    ensures whole + "." + fraction != "" && IsDigit((whole + "." + fraction)[0])
  {
    assert (whole + "." + fraction)[0] == whole[0];
  }

  lemma SignParses(text: string, value: i64)
    requires text != "" && IsDigit(text[0]) && ParseDecimal(text) == Some(Decimal(Magnitude(value), 6))
    ensures ParseSigned(if value < 0 then "-" + text else text) == Some(value)
  {
    assert ("-" + text)[1..] == text;
  }

  /** Every value reads back exactly, the smallest one included. */
  lemma MicrounitsReadBack(value: i64)
    ensures ParseSigned(FormatMicrounits(value)) == Some(value)
  {
    var m: nat := Magnitude(value);
    MagnitudeParses(m);
    SignParses(Digits(m / 1_000_000) + "." + LastDigits(m % 1_000_000, 6), value);
  }

  // ---------------------------------------------------------------------------------------------
  // Densities
  // ---------------------------------------------------------------------------------------------

  const ANDROID_DENSITY_BASE := 160
  const TABLET_MIN_SMALLEST_WIDTH_DP := 600

  /** The density of a landscape display; the product saturates. */
  function LandscapeDensity(shortEdge: u32, dpi: u32): u32 {
    var edge: int := shortEdge;
    Min(dpi, Min(edge * ANDROID_DENSITY_BASE, U32_MAX) / TABLET_MIN_SMALLEST_WIDTH_DP)
  }

  /** At this density the short edge still counts as a tablet's. */
  predicate KeepsTablet(density: nat, shortEdge: u32) {
    density * 600 <= shortEdge as int * 160
  }

  predicate IsLargest(density: nat, shortEdge: u32, dpi: u32) {
    && density <= dpi && KeepsTablet(density, shortEdge)
    && forall d: nat :: d <= dpi && KeepsTablet(d, shortEdge) ==> d <= density
  }

  /**
   The result never exceeds the density that was asked for and always keeps the tablet layout; it is the
   largest such density unless the product saturates and an absurd density is asked for.
   */
  lemma LandscapeDensityExactly(shortEdge: u32, dpi: u32)
    ensures LandscapeDensity(shortEdge, dpi) <= dpi && KeepsTablet(LandscapeDensity(shortEdge, dpi), shortEdge)
    ensures IsLargest(LandscapeDensity(shortEdge, dpi), shortEdge, dpi) <==> dpi <= 7_158_278 || shortEdge <= 26_843_546
  {
    if dpi > 7_158_278 && shortEdge > 26_843_546 {
      assert KeepsTablet(7_158_279, shortEdge);
    }
  }
}
