/**
 * parse_rate_to_bps: a human rate string such as "43.3kbps" to an integer
 * number of bits per second. PHP's (float) cast and round() are modelled
 * with exact decimals: the numeric prefix of a string is read as
 * sign, whole digits and fraction digits, scaled by the unit, and rounded
 * to the nearest integer with halves going away from zero.
 */
module Rate {
  import opened Text

  /** The exact value (-1)^negative * mantissa / 10^fractionDigits. */
  datatype Decimal = Decimal(negative: bool, mantissa: nat, fractionDigits: nat)

  function Pow10(n: nat): (p: nat)
    ensures p >= 1
  {
    if n == 0 then 1 else 10 * Pow10(n - 1)
  }

  function Abs(x: int): nat {
    if x < 0 then -x else x
  }

  /** The fraction digits that follow a '.' at the start of `rest`, if any. */
  function FractionDigits(rest: string): (frac: string)
    ensures AllDigits(frac)
  {
    if |rest| > 0 && rest[0] == '.' then rest[1..][..LeadingDigits(rest[1..])] else ""
  }

  /**
   * PHP's (float) of a string, without exponents: the longest prefix of the
   * form [+-]digits[.digits]; a string without such a prefix reads as 0.
   */
  function LeadingDecimal(s: string): (d: Decimal)
    ensures d.negative ==> |s| > 0 && s[0] == '-'
  {
    var signed := |s| > 0 && (s[0] == '+' || s[0] == '-');
    var body := if signed then s[1..] else s;
    var whole := body[..LeadingDigits(body)];
    var frac := FractionDigits(body[LeadingDigits(body)..]);
    assert AllDigits(whole + frac);
    Decimal(signed && s[0] == '-', DecimalValue(whole + frac), |frac|)
  }

  lemma DivisionBounds(a: nat, b: nat)
    requires b > 0
    ensures b * (a / b) <= a < b * (a / b) + b
  {
  }

  /** The natural number nearest to q / den, halves rounded up. */
  function NearestNat(q: nat, den: nat): (m: nat)
    requires den >= 1
    ensures 2 * q - den < 2 * den * m <= 2 * q + den
  {
    var w := 2 * den;
    DivisionBounds(2 * q + den, w);
    (2 * q + den) / w
  }

  /**
   * PHP round() of the exact value `d * factor`: the integer nearest to it,
   * halves rounded away from zero.
   */
  function RoundScaled(d: Decimal, factor: nat): (r: int)
    ensures var q := d.mantissa * factor;
            var den := Pow10(d.fractionDigits);
            2 * q - den < 2 * den * Abs(r) <= 2 * q + den
    ensures r < 0 ==> d.negative
    ensures r > 0 ==> !d.negative
  {
    var m: int := NearestNat(d.mantissa * factor, Pow10(d.fractionDigits));
    if d.negative then -m else m
  }

  predicate IsDigitOrDot(c: char) {
    IsDigit(c) || c == '.'
  }

  /** PHP preg_replace('/[^0-9.]/', '', $s): the digits and dots of `s`, in order. */
  function DigitsAndDots(s: string): (r: string)
    ensures |r| <= |s|
    ensures forall i :: 0 <= i < |r| ==> IsDigitOrDot(r[i])
  {
    if s == [] then []
    else (if IsDigitOrDot(s[0]) then [s[0]] else []) + DigitsAndDots(s[1..])
  }

  /** parse_rate_to_bps($s): the rate of the trimmed, lower-cased text. */
  function RateToBps(s: string): int {
    RateOfText(Trim(Lower(s)))
  }

  /**
   * The unit dispatch of parse_rate_to_bps on already normalized text: a
   * negative rate needs a minus sign in the text, and text without a unit
   * never reads negative.
   */
  function RateOfText(t: string): (r: int)
    ensures r < 0 ==> '-' in t
    ensures !EndsWith(t, "bps") ==> r >= 0
  {
    NumberTextSign(t);
    if t == "" || t == "0" || t == "0bps" then 0
    else RoundScaled(LeadingDecimal(NumberText(t)), UnitFactor(t))
  }

  /**
   * The multiplier of the unit `t` ends with: `kbps`, `mbps` and `gbps` are
   * tried before `bps`; no unit, or plain `bps`, is 1.
   */
  function UnitFactor(t: string): (f: nat)
    ensures f >= 1
    ensures f > 1 <==> EndsWith(t, "kbps") || EndsWith(t, "mbps") || EndsWith(t, "gbps")
    ensures f > 1 ==> EndsWith(t, "bps")
  {
    ScaledUnitEndsWithBps(t);
    if EndsWith(t, "kbps") then 1000
    else if EndsWith(t, "mbps") then 1000000
    else if EndsWith(t, "gbps") then 1000000000
    else 1
  }

  /**
   * What the float cast reads: the text before the unit (four letters for a
   * scaled unit, three for `bps`), or the digits and dots of unit-less text.
   */
  function NumberText(t: string): (n: string)
    ensures |n| <= |t|
    ensures EndsWith(t, "bps") ==> n == t[..|n|] && |t| - |n| == (if UnitFactor(t) > 1 then 4 else 3)
    ensures !EndsWith(t, "bps") ==> forall i :: 0 <= i < |n| ==> IsDigitOrDot(n[i])
  {
    ScaledUnitEndsWithBps(t);
    if EndsWith(t, "kbps") || EndsWith(t, "mbps") || EndsWith(t, "gbps") then t[..|t| - 4]
    else if EndsWith(t, "bps") then t[..|t| - 3]
    else DigitsAndDots(t)
  }

  // ------------------------------------------------------------ lemmas

  lemma {:induction false} LowerKeepsMinus(s: string)
    requires '-' in Lower(s)
    ensures '-' in s
  {
    var k :| 0 <= k < |Lower(s)| && Lower(s)[k] == '-';
    assert s[k] == '-';
  }

  /** The three scaled units all end in `bps`. */
  lemma ScaledUnitEndsWithBps(t: string)
    ensures EndsWith(t, "kbps") || EndsWith(t, "mbps") || EndsWith(t, "gbps") ==> EndsWith(t, "bps")
  {
    if |t| >= 4 {
      assert t[|t| - 3..] == t[|t| - 4..][1..];
    }
  }

  /** The number text of normalized text starts a minus sign only if the text does; unit-less text never does. */
  lemma {:induction false} NumberTextSign(t: string)
    ensures LeadingDecimal(NumberText(t)).negative ==> '-' in t
    ensures !EndsWith(t, "bps") ==> !LeadingDecimal(NumberText(t)).negative
  {
    var n := NumberText(t);
    if |n| > 0 {
      if EndsWith(t, "bps") {
        assert n[0] == t[0];
      } else {
        assert IsDigitOrDot(n[0]);
      }
    }
  }

  /** A rate without a minus sign is never negative; in particular a rate without a unit is at least 0. */
  lemma RateNonNegative(s: string)
    ensures '-' !in s ==> RateToBps(s) >= 0
    ensures !EndsWith(Trim(Lower(s)), "bps") ==> RateToBps(s) >= 0
  {
    var t := Trim(Lower(s));
    if '-' in t {
      TrimKeepsChars(Lower(s), '-');
      LowerKeepsMinus(s);
    }
  }

  /** Upper- and lower-case spellings of a rate read the same. */
  lemma RateIgnoresCase(s: string)
    ensures RateToBps(s) == RateToBps(Lower(s))
  {
    LowerIdempotent(s);
  }

  /** A digit string followed by a non-digit, non-dot text reads as its own value. */
  lemma {:induction false} LeadingDecimalOfWhole(ds: string, rest: string)
    requires AllDigits(ds) && ds != []
    requires rest == [] || (!IsDigit(rest[0]) && rest[0] != '.')
    ensures LeadingDecimal(ds + rest) == Decimal(false, DecimalValue(ds), 0)
  {
    var s := ds + rest;
    assert s[0] == ds[0];
    LeadingDigitsOfDigits(ds, rest);
    assert s[..|ds|] == ds && s[|ds|..] == rest;
    assert ds + "" == ds;
  }

  /** A digit string, a '.', and fraction digits read as the exact decimal they spell. */
  lemma {:induction false} LeadingDecimalOfFraction(ds: string, frac: string)
    requires AllDigits(ds) && ds != [] && AllDigits(frac)
    ensures LeadingDecimal(ds + "." + frac) == Decimal(false, DecimalValue(ds + frac), |frac|)
  {
    var s := ds + "." + frac;
    assert s[0] == ds[0];
    LeadingDigitsOfDigits(ds, "." + frac);
    assert s == ds + ("." + frac);
    assert s[..|ds|] == ds && s[|ds|..] == "." + frac;
    LeadingDigitsOfDigits(frac, "");
    assert frac + "" == frac;
    assert ("." + frac)[1..] == frac;
    assert FractionDigits("." + frac) == frac;
  }

  lemma {:induction false} LowerOfLowercase(s: string)
    requires forall i :: 0 <= i < |s| ==> !('A' <= s[i] <= 'Z')
    ensures Lower(s) == s
  {
  }

  /** Which unit a suffix is, with its multiplier. */
  predicate IsUnit(unit: string, factor: nat) {
    || (unit == "bps" && factor == 1)
    || (unit == "kbps" && factor == 1000)
    || (unit == "mbps" && factor == 1000000)
    || (unit == "gbps" && factor == 1000000000)
  }

  /** Number text already in normal form: lower case, unpadded at the start, ending in a digit. */
  predicate IsPlainNumber(num: string) {
    && num != []
    && !IsTrimChar(num[0])
    && IsDigit(num[|num| - 1])
    && forall i :: 0 <= i < |num| ==> !('A' <= num[i] <= 'Z')
  }

  /** A plain number followed by a unit is already trimmed and lower-cased. */
  lemma {:induction false} NormalizeNumberWithUnit(num: string, unit: string, factor: nat)
    requires IsPlainNumber(num) && IsUnit(unit, factor)
    ensures Trim(Lower(num + unit)) == num + unit
  {
    var s := num + unit;
    assert forall i :: 0 <= i < |s| ==> !('A' <= s[i] <= 'Z') by {
      forall i | 0 <= i < |s|
        ensures !('A' <= s[i] <= 'Z')
      {
        if i < |num| {
          assert s[i] == num[i];
        }
      }
    }
    LowerOfLowercase(s);
    assert s[0] == num[0];
    TrimOfTrimmed(s);
  }

  /** A whole number scaled by a whole factor needs no rounding. */
  lemma RoundWhole(v: nat, factor: nat)
    ensures RoundScaled(Decimal(false, v, 0), factor) == v * factor
  {
    var q := v * factor;
    var r := RoundScaled(Decimal(false, v, 0), factor);
    assert 2 * q - 1 < 2 * r <= 2 * q + 1;
  }

  /** The unit of a number ending in a digit is the suffix after it, and the number text is what precedes it. */
  lemma {:induction false} UnitOfNumberWithUnit(num: string, unit: string, factor: nat)
    requires num != [] && IsDigit(num[|num| - 1])
    requires IsUnit(unit, factor)
    ensures UnitFactor(num + unit) == factor
    ensures NumberText(num + unit) == num
  {
    var t := num + unit;
    assert t[..|t| - |unit|] == num;
    assert t[|t| - |unit|..] == unit;
    if unit == "bps" {
      assert t[|t| - 4] == num[|num| - 1];
    }
  }

  /** The number "0" scaled by any unit is 0. */
  lemma ZeroReadsAsZero(factor: nat)
    ensures RoundScaled(LeadingDecimal("0"), factor) == 0
  {
    LeadingDecimalOfWhole("0", "");
    assert "0" + "" == "0";
    assert DecimalValue("0") == 0 by {
      assert "0"[..0] == [];
    }
    RoundWhole(0, factor);
  }

  /**
   * A plain number followed by a unit reads as the number's exact value times
   * the unit's multiplier, rounded half away from zero.
   */
  lemma {:induction false} RateOfNumberWithUnit(num: string, unit: string, factor: nat)
    requires IsPlainNumber(num) && IsUnit(unit, factor)
    ensures RateToBps(num + unit) == RoundScaled(LeadingDecimal(num), factor)
  {
    var t := num + unit;
    NormalizeNumberWithUnit(num, unit, factor);
    assert t != "" && t != "0" by {
      assert |t| >= 3;
    }
    if t == "0bps" {
      assert num == t[..1] == "0";
      ZeroReadsAsZero(factor);
    } else {
      UnitOfNumberWithUnit(num, unit, factor);
    }
  }

  /** A non-empty digit string is already trimmed and lower-cased. */
  lemma BareDigitsNormalized(ds: string)
    requires AllDigits(ds) && ds != []
    ensures Trim(Lower(ds)) == ds
  {
    assert forall i :: 0 <= i < |ds| ==> !('A' <= ds[i] <= 'Z') by {
      forall i | 0 <= i < |ds|
        ensures !('A' <= ds[i] <= 'Z')
      {
        assert IsDigit(ds[i]);
      }
    }
    LowerOfLowercase(ds);
    assert IsDigit(ds[0]) && IsDigit(ds[|ds| - 1]);
    TrimOfTrimmed(ds);
  }

  /** Text ending in a digit has no unit. */
  lemma NoUnitAfterDigit(t: string)
    requires t != [] && IsDigit(t[|t| - 1])
    ensures !EndsWith(t, "bps")
    ensures UnitFactor(t) == 1
    ensures NumberText(t) == DigitsAndDots(t)
  {
    if |t| >= 3 {
      assert t[|t| - 3..][2] == t[|t| - 1];
    }
    ScaledUnitEndsWithBps(t);
  }

  /** A number without a unit is a count of bits per second: a bare digit string reads as its value. */
  lemma {:induction false} RateOfBareDigits(ds: string)
    requires AllDigits(ds) && ds != []
    ensures RateToBps(ds) == DecimalValue(ds)
  {
    BareDigitsNormalized(ds);
    if ds == "0" {
      assert DecimalValue(ds) == 0 by {
        assert ds[..0] == [];
      }
    } else {
      assert IsDigit(ds[|ds| - 1]);
      NoUnitAfterDigit(ds);
      DigitsAndDotsOfDigits(ds);
      LeadingDecimalOfWhole(ds, "");
      assert ds + "" == ds;
      RoundWhole(DecimalValue(ds), 1);
    }
  }

  /** A single character is kept exactly when it is a digit or a dot. */
  lemma DigitsAndDotsOne(c: char)
    ensures DigitsAndDots([c]) == if IsDigitOrDot(c) then [c] else []
  {
    assert [c][1..] == [];
  }

  /** The filter works character by character: it distributes over concatenation, so it keeps the order. */
  lemma {:induction false} DigitsAndDotsAppend(a: string, b: string)
    ensures DigitsAndDots(a + b) == DigitsAndDots(a) + DigitsAndDots(b)
    decreases |a|
  {
    if a == [] {
      assert a + b == b;
    } else {
      assert (a + b)[0] == a[0] && (a + b)[1..] == a[1..] + b;
      DigitsAndDotsAppend(a[1..], b);
    }
  }

  lemma {:induction false} DigitsAndDotsOfDigits(ds: string)
    requires AllDigits(ds)
    ensures DigitsAndDots(ds) == ds
    decreases |ds|
  {
    if ds != [] {
      DigitsAndDotsOfDigits(ds[1..]);
    }
  }

  /** A whole number followed by a unit reads as that number times the unit's multiplier. */
  lemma RateOfWholeUnits(n: nat, unit: string, factor: nat)
    requires IsUnit(unit, factor)
    ensures RateToBps(ShowNat(n) + unit) == n * factor
  {
    var ds := ShowNat(n);
    assert IsDigit(ds[0]) && IsDigit(ds[|ds| - 1]);
    assert IsPlainNumber(ds);
    RateOfNumberWithUnit(ds, unit, factor);
    LeadingDecimalOfWhole(ds, "");
    assert ds + "" == ds;
    DecimalValueOfShowNat(n);
    RoundWhole(n, factor);
  }
}
