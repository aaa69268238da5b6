/**
 * Worked examples: concrete inputs of the dashboard's parsers, selectors,
 * cache and controller, and what the model says they produce.
 */
module Scenarios {
  import opened Wrappers
  import opened Text
  import opened Rate
  import opened KvParser
  import opened Interfaces
  import opened Channel
  import opened Probe
  import opened Cache
  import opened Poll

  // --------------------------------------------------------------- rates

  /** A lower-case rate with no padding is its own normal form. */
  lemma Normalized(s: string)
    requires s != [] && !IsTrimChar(s[0]) && !IsTrimChar(s[|s| - 1])
    requires forall i :: 0 <= i < |s| ==> !('A' <= s[i] <= 'Z')
    ensures Trim(Lower(s)) == s
  {
    LowerOfLowercase(s);
    TrimOfTrimmed(s);
  }

  /** The value of a three-digit string. */
  lemma ThreeDigits(a: char, b: char, c: char)
    requires IsDigit(a) && IsDigit(b) && IsDigit(c)
    ensures DecimalValue([a, b, c]) == 100 * DigitValue(a) + 10 * DigitValue(b) + DigitValue(c)
  {
    DecimalValueSnoc([], a);
    DecimalValueSnoc([a], b);
    DecimalValueSnoc([a, b], c);
    assert [] + [a] == [a] && [a] + [b] == [a, b] && [a, b] + [c] == [a, b, c];
  }

  /** "abc" reads as the whole number abc. */
  lemma ThreeDigitWhole(a: char, b: char, c: char)
    requires IsDigit(a) && IsDigit(b) && IsDigit(c)
    ensures LeadingDecimal([a, b, c]) == Decimal(false, 100 * DigitValue(a) + 10 * DigitValue(b) + DigitValue(c), 0)
  {
    LeadingDecimalOfWhole([a, b, c], []);
    assert [a, b, c] + [] == [a, b, c];
    ThreeDigits(a, b, c);
  }

  /** "ab.c" reads as the decimal abc / 10. */
  lemma TwoDotOne(a: char, b: char, c: char)
    requires IsDigit(a) && IsDigit(b) && IsDigit(c)
    ensures LeadingDecimal([a, b, '.', c]) == Decimal(false, 100 * DigitValue(a) + 10 * DigitValue(b) + DigitValue(c), 1)
  {
    assert [a, b, '.', c] == [a, b] + "." + [c];
    LeadingDecimalOfFraction([a, b], [c]);
    assert [a, b] + [c] == [a, b, c];
    ThreeDigits(a, b, c);
  }

  /** "43.3kbps" is 43300 bit/s: 43.3 times 1000. */
  lemma KilobitRate()
    ensures RateToBps("43.3" + "kbps") == 43300
  {
    assert IsPlainNumber("43.3");
    RateOfNumberWithUnit("43.3", "kbps", 1000);
    TwoDotOne('4', '3', '3');
    var r := RoundScaled(Decimal(false, 433, 1), 1000);
    assert 2 * 433000 - 10 < 2 * 10 * Abs(r) <= 2 * 433000 + 10;
  }

  /** "10.4mbps" is 10400000 bit/s. */
  lemma MegabitRate()
    ensures RateToBps("10.4" + "mbps") == 10400000
  {
    assert IsPlainNumber("10.4");
    RateOfNumberWithUnit("10.4", "mbps", 1000000);
    TwoDotOne('1', '0', '4');
    var r := RoundScaled(Decimal(false, 104, 1), 1000000);
    assert 2 * 104000000 - 10 < 2 * 10 * Abs(r) <= 2 * 104000000 + 10;
  }

  /** "123bps" is 123 bit/s. */
  lemma BitRate()
    ensures RateToBps("123" + "bps") == 123
  {
    assert IsPlainNumber("123");
    RateOfNumberWithUnit("123", "bps", 1);
    ThreeDigitWhole('1', '2', '3');
    RoundWhole(123, 1);
  }

  /** A bare number is bit/s: "500" is 500. */
  lemma UnitlessRate()
    ensures RateToBps("500") == 500
  {
    RateOfBareDigits("500");
    assert "500" == ['5', '0', '0'];
    ThreeDigits('5', '0', '0');
  }

  /** The spellings of zero, and the empty string, are 0. */
  lemma ZeroRates()
    ensures RateToBps("0bps") == 0
    ensures RateToBps("") == 0
    ensures RateToBps(" 0 ") == 0
  {
    Normalized("0bps");
    assert Trim(Lower(" 0 ")) == "0" by {
      assert Lower(" 0 ") == " 0 ";
      TrimOfPadded(" 0 ", 1, "0");
    }
  }

  /** "a.c" reads as the decimal (10a + c) / 10. */
  lemma OneDotOne(a: char, c: char)
    requires IsDigit(a) && IsDigit(c)
    ensures LeadingDecimal([a, '.', c]) == Decimal(false, 10 * DigitValue(a) + DigitValue(c), 1)
  {
    assert [a, '.', c] == [a] + "." + [c];
    LeadingDecimalOfFraction([a], [c]);
    assert [a] + [c] == [a, c];
    DecimalValueSnoc([], a);
    DecimalValueSnoc([a], c);
    assert [] + [a] == [a];
  }

  /** "-a.c" reads as the decimal -(10a + c) / 10. */
  lemma MinusOneDotOne(a: char, c: char)
    requires IsDigit(a) && IsDigit(c)
    ensures LeadingDecimal(['-', a, '.', c]) == Decimal(true, 10 * DigitValue(a) + DigitValue(c), 1)
  {
    assert ['-', a, '.', c][1..] == [a, '.', c];
    OneDotOne(a, c);
  }

  /** A half rounds up: "1.5bps" is 2. */
  lemma HalfRoundsUp()
    ensures RateToBps("1.5" + "bps") == 2
  {
    assert IsPlainNumber("1.5");
    RateOfNumberWithUnit("1.5", "bps", 1);
    OneDotOne('1', '5');
    var r := RoundScaled(Decimal(false, 15, 1), 1);
    assert 2 * 15 - 10 < 2 * 10 * Abs(r) <= 2 * 15 + 10;
  }

  /** A negative half rounds down, away from zero: "-1.5bps" is -2. */
  lemma NegativeHalfRoundsDown()
    ensures RateToBps("-1.5" + "bps") == -2
  {
    assert IsPlainNumber("-1.5");
    RateOfNumberWithUnit("-1.5", "bps", 1);
    MinusOneDotOne('1', '5');
    var m := RoundScaled(Decimal(true, 15, 1), 1);
    assert 2 * 15 - 10 < 2 * 10 * Abs(m) <= 2 * 15 + 10;
  }

  /** A minus sign before a unit gives a negative rate: "-5kbps" is -5000. */
  lemma NegativeRate()
    ensures RateToBps("-5" + "kbps") == -5000
  {
    assert IsPlainNumber("-5");
    RateOfNumberWithUnit("-5", "kbps", 1000);
    MinusDigit('5');
    NegativeWhole(5, 1000);
  }

  /** "-d" reads as the negative whole number -d. */
  lemma MinusDigit(d: char)
    requires IsDigit(d)
    ensures LeadingDecimal(['-', d]) == Decimal(true, DigitValue(d), 0)
  {
    assert ['-', d][1..] == [d];
    LeadingDecimalOfWhole([d], []);
    assert [d] + [] == [d];
    DecimalValueSnoc([], d);
    assert [] + [d] == [d];
  }

  /** A negative whole number scaled by a whole factor needs no rounding. */
  lemma NegativeWhole(v: nat, factor: nat)
    ensures RoundScaled(Decimal(true, v, 0), factor) == -(v * factor)
  {
    var r := RoundScaled(Decimal(true, v, 0), factor);
    assert 2 * (v * factor) - 1 < 2 * Abs(r) <= 2 * (v * factor) + 1;
  }

  /** Units are read without regard to case: "43.3KBPS" is 43.3 kbit/s. */
  lemma UpperCaseRate()
    ensures RateToBps("43.3" + "KBPS") == 43300
  {
    UpperKbps();
    RateIgnoresCase("43.3" + "KBPS");
    KilobitRate();
  }

  /** Lower-casing "43.3KBPS" only changes the letters of the unit. */
  lemma UpperKbps()
    ensures Lower("43.3" + "KBPS") == "43.3" + "kbps"
  {
  }

  // ------------------------------------------------------------- parsing

  /** A token `k=v` whose key has no `=` splits into its key and value. */
  lemma KeyValueToken(k: string, v: string)
    requires '=' !in k
    ensures '=' in k + "=" + v
    ensures SplitAtFirst(k + "=" + v, '=') == (k, v)
  {
    var t := k + "=" + v;
    AroundChar(k, '=', v);
    IndexOfAt(t, '=', |k|);
  }

  /** Assigning two tokens `k1=v1 k2=v2` into an empty row. */
  lemma TwoPairs(k1: string, v1: string, k2: string, v2: string)
    requires '=' !in k1 && '=' !in k2
    ensures AssignPairs(map[], [k1 + "=" + v1, k2 + "=" + v2]) == map[k1 := v1][k2 := v2]
  {
    var tokens := [k1 + "=" + v1, k2 + "=" + v2];
    KeyValueToken(k1, v1);
    KeyValueToken(k2, v2);
    assert tokens[..1] == [k1 + "=" + v1];
    assert tokens[..1][..0] == [];
    assert AssignPairs(map[], tokens[..1]) == map[k1 := v1];
  }

  /** A line of two tokens `k1=v1 k2=v2` is the row assigning both, in order. */
  lemma TwoPairLine(k1: string, v1: string, k2: string, v2: string)
    requires '=' !in k1 && '=' !in k2
    requires NoSpace(k1) && NoSpace(v1) && NoSpace(k2) && NoSpace(v2)
    ensures TerseRecord(k1 + "=" + v1 + " " + k2 + "=" + v2) == map[k1 := v1][k2 := v2]
  {
    var t1, t2 := k1 + "=" + v1, k2 + "=" + v2;
    assert t1[|k1|] == '=' && t2[|k2|] == '=';
    assert NoSpace(t1) && NoSpace(t2);
    assert k1 + "=" + v1 + " " + k2 + "=" + v2 == Implode([t1, t2], ' ');
    SplitOnSpaceRunsOfWords([t1, t2]);
    TwoPairs(k1, v1, k2, v2);
  }

  /** The terse line "a=1 b=2" is the row {a: 1, b: 2}. */
  lemma TerseLineExample(l: string)
    requires l == "a=1 b=2"
    ensures TerseRecord(l) == map["a" := "1", "b" := "2"]
  {
    var k1, v1, k2, v2 := "a", "1", "b", "2";
    assert l == k1 + "=" + v1 + " " + k2 + "=" + v2;
    TwoPairLine(k1, v1, k2, v2);
  }

  /** The terse line "c=3" is the row {c: 3}. */
  lemma SinglePairExample()
    ensures TerseRecord("c=3") == map["c" := "3"]
  {
    SplitOnSpaceRunsOfWords(["c=3"]);
    assert "c=3" == "c" + "=" + "3";
    KeyValueToken("c", "3");
    assert ["c=3"][..0] == [];
  }

  /** Two unpadded lines separated by a blank line are kept, and the blank line is dropped. */
  lemma BlankLineDropped(l1: string, l2: string)
    requires '\n' !in l1 && '\n' !in l2
    requires Truthy(l1) && Truthy(l2)
    requires !IsTrimChar(l1[0]) && !IsTrimChar(l1[|l1| - 1])
    requires !IsTrimChar(l2[0]) && !IsTrimChar(l2[|l2| - 1])
    ensures KeptLines(l1 + "\n\n" + l2) == [l1, l2]
  {
    var parts := [l1, "", l2];
    assert Implode(parts[2..], '\n') == l2;
    assert Implode(parts[1..], '\n') == "" + "\n" + l2;
    assert Implode(parts, '\n') == l1 + "\n" + ("" + "\n" + l2);
    assert l1 + "\n\n" + l2 == l1 + "\n" + ("" + "\n" + l2);
    ExplodeImplode(parts, '\n');
    TrimOfTrimmed(l1);
    TrimOfTrimmed(l2);
    assert KeepTruthy(parts[2..]) == [l2];
    assert KeepTruthy(parts[1..]) == [l2];
  }

  /** Two lines holding `=` make two rows, in order, and no colon row. */
  lemma TwoTerseLines(l1: string, l2: string)
    requires '=' in l1 && '=' in l2
    ensures TerseRows([l1, l2]) == [TerseRecord(l1), TerseRecord(l2)]
    ensures ColonRecord([l1, l2]) == map[]
  {
    var lines := [l1, l2];
    TerseRecordNonEmpty(l1);
    TerseRecordNonEmpty(l2);
    assert lines[..1] == [l1] && lines[..1][..0] == [];
    assert TerseRows(lines[..1]) == [TerseRecord(l1)];
    assert ColonRecord(lines[..1]) == map[];
  }

  /** Two unpadded terse lines with a blank line between them parse to their two records. */
  lemma TwoTerseLinesResponse(l1: string, l2: string)
    requires '\n' !in l1 && '\n' !in l2
    requires '=' in l1 && '=' in l2
    requires !IsTrimChar(l1[0]) && !IsTrimChar(l1[|l1| - 1])
    requires !IsTrimChar(l2[0]) && !IsTrimChar(l2[|l2| - 1])
    ensures ParseRows(l1 + "\n\n" + l2) == [TerseRecord(l1), TerseRecord(l2)]
  {
    BlankLineDropped(l1, l2);
    TwoTerseLines(l1, l2);
  }

  /** The records of the lines "a=1 b=2" and "c=3". */
  lemma TerseRecordsExample(l1: string, l2: string)
    requires l1 == "a=1 b=2" && l2 == "c=3"
    ensures [TerseRecord(l1), TerseRecord(l2)] == [map["a" := "1", "b" := "2"], map["c" := "3"]]
  {
    TerseLineExample(l1);
    SinglePairExample();
  }

  /**
   * The response "a=1 b=2", a blank line, "c=3" is two rows: the blank line
   * is dropped and each terse line is a row of its own.
   */
  lemma TerseResponseExample(l1: string, l2: string)
    requires l1 == "a=1 b=2" && l2 == "c=3"
    ensures ParseRows(l1 + "\n\n" + l2) == [map["a" := "1", "b" := "2"], map["c" := "3"]]
  {
    TwoTerseLinesResponse(l1, l2);
    TerseRecordsExample(l1, l2);
  }

  /** A fragment `k: v` with an unpadded key and value is the pair (k, v). */
  lemma ColonFragment(k: string, v: string)
    requires ':' !in k && k != [] && !IsTrimChar(k[0]) && !IsTrimChar(k[|k| - 1])
    requires v != [] && !IsTrimChar(v[0]) && !IsTrimChar(v[|v| - 1])
    ensures ':' in k + ": " + v
    ensures ColonPair(k + ": " + v) == (k, v)
  {
    var t := k + ": " + v;
    assert t == k + [':'] + (" " + v);
    AroundChar(k, ':', " " + v);
    IndexOfAt(t, ':', |k|);
    TrimOfTrimmed(k);
    TrimOfPadded(" " + v, 1, v);
  }

  /** A single line that the line filter keeps unchanged: non-blank, unpadded, not "0". */
  predicate KeptAsIs(l: string) {
    '\n' !in l && Truthy(l) && !IsTrimChar(l[0]) && !IsTrimChar(l[|l| - 1])
  }

  /** A line kept as is stays at the head of the kept lines. */
  lemma KeepKeptLine(l: string, rest: seq<string>)
    requires KeptAsIs(l)
    ensures KeepTruthy([l] + rest) == [l] + KeepTruthy(rest)
  {
    TrimOfTrimmed(l);
    assert ([l] + rest)[1..] == rest;
  }

  /** A blank piece is dropped. */
  lemma KeepBlank(rest: seq<string>)
    ensures KeepTruthy([""] + rest) == KeepTruthy(rest)
  {
    assert ([""] + rest)[1..] == rest;
  }

  /** The filter over the pieces `l3`, "". */
  lemma KeepLineThenBlank(l3: string)
    requires KeptAsIs(l3)
    ensures KeepTruthy([l3, ""]) == [l3]
  {
    assert [l3, ""] == [l3] + [""];
    KeepKeptLine(l3, [""]);
  }

  /** The filter over the pieces "", `l3`, "". */
  lemma KeepBlankLineBlank(l3: string)
    requires KeptAsIs(l3)
    ensures KeepTruthy(["", l3, ""]) == [l3]
  {
    assert ["", l3, ""] == [""] + [l3, ""];
    KeepBlank([l3, ""]);
    KeepLineThenBlank(l3);
  }

  /** The filter over the pieces `l2`, "", `l3`, "". */
  lemma KeepFourParts(l2: string, l3: string)
    requires KeptAsIs(l2) && KeptAsIs(l3)
    ensures KeepTruthy([l2, "", l3, ""]) == [l2, l3]
  {
    assert [l2, "", l3, ""] == [l2] + ["", l3, ""];
    KeepKeptLine(l2, ["", l3, ""]);
    KeepBlankLineBlank(l3);
  }

  /** The filter over the pieces `l1`, `l2`, "", `l3`, "". */
  lemma KeepFiveParts(l1: string, l2: string, l3: string)
    requires KeptAsIs(l1) && KeptAsIs(l2) && KeptAsIs(l3)
    ensures KeepTruthy([l1, l2, "", l3, ""]) == [l1, l2, l3]
  {
    assert [l1, l2, "", l3, ""] == [l1] + [l2, "", l3, ""];
    KeepKeptLine(l1, [l2, "", l3, ""]);
    KeepFourParts(l2, l3);
  }

  /** Of three kept lines, a blank line and an empty last piece (a final newline), only the three lines are kept. */
  lemma ThreeLinesKept(l1: string, l2: string, l3: string)
    requires KeptAsIs(l1) && KeptAsIs(l2) && KeptAsIs(l3)
    ensures KeptLines(Implode([l1, l2, "", l3, ""], '\n')) == [l1, l2, l3]
  {
    var parts := [l1, l2, "", l3, ""];
    ExplodeImplode(parts, '\n');
    KeepFiveParts(l1, l2, l3);
  }

  /** The as-value line `k: v`. */
  function Fragment(k: string, v: string): string {
    k + ": " + v
  }

  /** A key and a value that make a one-line `key: value` fragment. */
  predicate FragmentParts(k: string, v: string) {
    && k != [] && v != []
    && ':' !in k && '=' !in k && '=' !in v && '\n' !in k && '\n' !in v
    && !IsTrimChar(k[0]) && !IsTrimChar(k[|k| - 1])
    && !IsTrimChar(v[0]) && !IsTrimChar(v[|v| - 1])
  }

  /** The line `k: v` is a kept, unpadded fragment line whose pair is (k, v). */
  lemma FragmentLine(k: string, v: string)
    requires FragmentParts(k, v)
    ensures KeptAsIs(Fragment(k, v))
    ensures '=' !in Fragment(k, v)
    ensures ':' in Fragment(k, v) && ColonPair(Fragment(k, v)) == (k, v)
  {
    var l := k + ": " + v;
    assert |l| == |k| + 2 + |v|;
    assert l != "" && l != "0";
    assert l[0] == k[0] && l[|k| + 1 + |v|] == v[|v| - 1];
    assert '\n' !in ": " && '=' !in ": ";
    ColonFragment(k, v);
  }

  /** A prefix of `s` followed by the next element is the next prefix; the prefix of full length is `s`. */
  lemma PrefixThenNext<T>(s: seq<T>, i: nat)
    requires i < |s|
    ensures s[..i] + [s[i]] == s[..i + 1]
    ensures s[..|s|] == s
  {
  }

  /** A fragment line added at the end adds no terse row and assigns its pair into the colon row. */
  lemma FragmentAppended(lines: seq<string>, l: string)
    requires '=' !in l && ':' in l && ColonPair(l).0 != ""
    ensures TerseRows(lines + [l]) == TerseRows(lines)
    ensures ColonRecord(lines + [l]) == ColonRecord(lines)[ColonPair(l).0 := ColonPair(l).1]
  {
    assert (lines + [l])[..|lines|] == lines;
  }

  /** Three fragment lines give no terse row, and their pairs assigned in order as the colon row. */
  lemma ThreeFragments(l1: string, l2: string, l3: string)
    requires '=' !in l1 && '=' !in l2 && '=' !in l3
    requires ':' in l1 && ':' in l2 && ':' in l3
    requires ColonPair(l1).0 != "" && ColonPair(l2).0 != "" && ColonPair(l3).0 != ""
    ensures TerseRows([l1, l2, l3]) == []
    ensures ColonRecord([l1, l2, l3])
         == map[ColonPair(l1).0 := ColonPair(l1).1][ColonPair(l2).0 := ColonPair(l2).1][ColonPair(l3).0 := ColonPair(l3).1]
  {
    var lines := [l1, l2, l3];
    PrefixThenNext(lines, 0);
    PrefixThenNext(lines, 1);
    PrefixThenNext(lines, 2);
    FragmentAppended(lines[..0], l1);
    FragmentAppended(lines[..1], l2);
    FragmentAppended(lines[..2], l3);
  }

  /** A response of three fragment lines, a blank line before the third, is the single colon row. */
  lemma ThreeFragmentsResponse(l1: string, l2: string, l3: string)
    requires KeptAsIs(l1) && KeptAsIs(l2) && KeptAsIs(l3)
    requires '=' !in l1 && '=' !in l2 && '=' !in l3
    requires ':' in l1 && ':' in l2 && ':' in l3
    requires ColonPair(l1).0 != "" && ColonPair(l2).0 != "" && ColonPair(l3).0 != ""
    ensures ParseRows(Implode([l1, l2, "", l3, ""], '\n')) == [ColonRecord([l1, l2, l3])]
  {
    var raw := Implode([l1, l2, "", l3, ""], '\n');
    ThreeLinesKept(l1, l2, l3);
    ThreeFragments(l1, l2, l3);
    var lines := KeptLines(raw);
    assert lines == [l1, l2, l3];
    var current := ColonRecord(lines);
    assert ColonPair(l3).0 in current;
    assert TerseRows(lines) == [];
    assert ParseRows(raw) == [] + [current];
  }

  /**
   * A repeated key after a blank line does not start a new row: the lines
   * `k1: v1`, `k2: v2`, a blank line and `k1: v3` are one row in which the
   * later `k1` wins.
   */
  lemma RepeatedKeyMerges(k1: string, v1: string, k2: string, v2: string, v3: string)
    requires FragmentParts(k1, v1) && FragmentParts(k2, v2) && FragmentParts(k1, v3)
    requires k1 != k2
    ensures ParseRows(Implode([Fragment(k1, v1), Fragment(k2, v2), "", Fragment(k1, v3), ""], '\n')) == [map[k1 := v3, k2 := v2]]
  {
    var l1, l2, l3 := Fragment(k1, v1), Fragment(k2, v2), Fragment(k1, v3);
    RepeatedKeyRow(k1, v1, k2, v2, v3);
    ThreeFragmentsResponse(l1, l2, l3);
  }

  /** The colon row of `k1: v1`, `k2: v2`, `k1: v3`: the later value of `k1` replaces the earlier. */
  lemma RepeatedKeyRow(k1: string, v1: string, k2: string, v2: string, v3: string)
    requires FragmentParts(k1, v1) && FragmentParts(k2, v2) && FragmentParts(k1, v3)
    requires k1 != k2
    ensures KeptAsIs(Fragment(k1, v1)) && KeptAsIs(Fragment(k2, v2)) && KeptAsIs(Fragment(k1, v3))
    ensures '=' !in Fragment(k1, v1) && '=' !in Fragment(k2, v2) && '=' !in Fragment(k1, v3)
    ensures ':' in Fragment(k1, v1) && ':' in Fragment(k2, v2) && ':' in Fragment(k1, v3)
    ensures ColonPair(Fragment(k1, v1)).0 != "" && ColonPair(Fragment(k2, v2)).0 != "" && ColonPair(Fragment(k1, v3)).0 != ""
    ensures ColonRecord([Fragment(k1, v1), Fragment(k2, v2), Fragment(k1, v3)]) == map[k1 := v3, k2 := v2]
  {
    var l1, l2, l3 := Fragment(k1, v1), Fragment(k2, v2), Fragment(k1, v3);
    FragmentLine(k1, v1);
    FragmentLine(k2, v2);
    FragmentLine(k1, v3);
    ThreeFragments(l1, l2, l3);
    LaterUpdateWins(k1, v1, k2, v2, v3);
  }

  lemma LaterUpdateWins(k1: string, v1: string, k2: string, v2: string, v3: string)
    requires k1 != k2
    ensures map[k1 := v1][k2 := v2][k1 := v3] == map[k1 := v3, k2 := v2]
  {
  }

  /**
   * The as-value response "name: eth0", "type: ether", a blank line,
   * "name: eth1" is ONE row {name: eth1, type: ether}: the blank line is
   * dropped before the loop, so the fragments are never flushed apart.
   */
  lemma FragmentResponseExample()
    ensures ParseRows(Implode([Fragment("name", "eth0"), Fragment("type", "ether"), "", Fragment("name", "eth1"), ""], '\n'))
         == [map["name" := "eth1", "type" := "ether"]]
  {
    RepeatedKeyMerges("name", "eth0", "type", "ether", "eth1");
  }

  // ---------------------------------------------------------- interfaces

  /** A listing row carrying only a name. */
  function Named(n: string): Record {
    map["name" := n]
  }

  /**
   * Exact mode keeps the configured order and drops what the device lacks:
   * ether1, ether2, ether3 over a device with ether1, ether2, ether4 shows
   * ether1, ether2.
   */
  lemma ExactSelectionExample(a: string, b: string, c: string, d: string)
    requires a == "ether1" && b == "ether2" && c == "ether3" && d == "ether4"
    ensures SelectNames([Named(a), Named(b), Named(d)], [a, b, c], []) == [a, b]
  {
    var rows := [Named(a), Named(b), Named(d)];
    ExamplePresence(rows, a, b, c, d);
    var present := PresentNames(rows);
    var names := [a, b, c];
    PrefixThenNext(names, 0);
    PrefixThenNext(names, 1);
    PrefixThenNext(names, 2);
    KeepPresentAppend(names[..0], a, present);
    KeepPresentAppend(names[..1], b, present);
    KeepPresentAppend(names[..2], c, present);
    assert [] + [a] + [b] == [a, b];
  }

  /** The device of the exact-mode example has ether1 and ether2 but not ether3. */
  lemma ExamplePresence(rows: seq<Record>, a: string, b: string, c: string, d: string)
    requires a == "ether1" && b == "ether2" && c == "ether3" && d == "ether4"
    requires rows == [Named(a), Named(b), Named(d)]
    ensures a in PresentNames(rows) && b in PresentNames(rows) && c !in PresentNames(rows)
  {
    assert NamedAt(rows, 0, a) && NamedAt(rows, 1, b);
    PresentNamesOfRows(rows, a);
    PresentNamesOfRows(rows, b);
    PresentNamesOfRows(rows, c);
    assert !exists i :: NamedAt(rows, i, c) by {
      assert forall i :: 0 <= i < |rows| ==> NameOf(rows[i]) in {a, b, d};
    }
  }

  /** A pattern matches a name that starts with it. */
  lemma PatternPrefix(n: string, pattern: string)
    requires StartsWith(Lower(n), Lower(pattern))
    ensures MatchesAnyPattern(n, [pattern])
  {
    assert OccursAt(Lower(pattern), Lower(n), 0);
    assert [pattern][0] == pattern && ContainsIgnoreCase(n, pattern);
  }

  /**
   * Pattern mode keeps the device's order: over ether2, sfp1, ether1 the
   * pattern "ether" shows ether2, ether1.
   */
  lemma PatternSelectionExample(a: string, b: string, c: string, p: string)
    requires a == "ether2" && b == "sfp1" && c == "ether1" && p == "ether"
    ensures SelectNames([Named(a), Named(b), Named(c)], [], [p]) == [a, c]
  {
    var rows := [Named(a), Named(b), Named(c)];
    PatternPrefix(a, p);
    PatternPrefix(c, p);
    assert !MatchesAnyPattern(b, [p]) by {
      assert |Lower(p)| > |Lower(b)|;
    }
    PrefixThenNext(rows, 0);
    PrefixThenNext(rows, 1);
    PrefixThenNext(rows, 2);
    MatchingNamesAppend(rows[..0], Named(a), [p]);
    MatchingNamesAppend(rows[..1], Named(b), [p]);
    MatchingNamesAppend(rows[..2], Named(c), [p]);
    assert [] + [a] + [] + [c] == [a, c];
  }

  // ------------------------------------------------------ cache and poll

  /**
   * With a TTL of 0 a snapshot written at second 100 is still served at
   * second 100, and no longer at second 101.
   */
  method ZeroTtlScenario() returns (sameSecond: Option<int>, nextSecond: Option<int>)
    ensures sameSecond == Some(7)
    ensures nextSecond == None
  {
    var cache := new ResultCache<int>(0);
    cache.Set(7, 100, true);
    sameSecond := cache.Get(100);
    nextSecond := cache.Get(101);
  }

  /** A router that refuses the connection fails the poll at its first command. */
  lemma UnreachableRouter(device: Device, cfg: Config, now: int)
    requires device("/system/resource/print terse") == Failed(ConnectFailed)
    ensures FreshPoll(device, cfg, now) == Polled(Failure(now, "SSH connect failed"), ["/system/resource/print terse"])
  {
    var path := "/system/resource/print";
    assert path + " terse" == "/system/resource/print terse";
    assert RosExec(device, path + " terse") == Err("SSH connect failed");
    FailureStopsProbe(device, path);
    assert UptimeCpu(device) == Probed(Err("SSH connect failed"), [path + " terse"]);
  }

  /**
   * Polling an unreachable router through an empty cache reports the
   * connection failure and leaves the cache empty.
   */
  method UnreachableRouterScenario(device: Device, cfg: Config, now: int) returns (polled: Polled, after: Option<PollResult>)
    requires device("/system/resource/print terse") == Failed(ConnectFailed)
    ensures polled == Polled(Failure(now, "SSH connect failed"), ["/system/resource/print terse"])
    ensures after == None
  {
    var cache := new ResultCache<PollResult>(10);
    polled := Poll.Poll(cache, device, cfg, now, true);
    UnreachableRouter(device, cfg, now);
    after := cache.Get(now);
  }

  /**
   * Two polls in the same second through an empty cache: after a success
   * the second poll serves the stored snapshot and sends nothing; after a
   * failure it polls the device afresh.
   */
  method PollTwiceScenario(device: Device, cfg: Config, ttl: int, now: int) returns (first: Polled, second: Polled)
    requires ttl >= 0
    ensures first == FreshPoll(device, cfg, now)
    ensures first.data.Success? ==> second == Polled(first.data, [])
    ensures first.data.Failure? ==> second == FreshPoll(device, cfg, now)
  {
    var cache := new ResultCache<PollResult>(ttl);
    first := Poll.Poll(cache, device, cfg, now, true);
    if first.data.Success? {
      assert cache.entry == Some(Entry(first.data, now));
      HitWindow(first.data, now, ttl, now);
    } else {
      assert cache.entry == None;
    }
    second := Poll.Poll(cache, device, cfg, now, true);
  }
}
