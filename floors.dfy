/**
 * `extract_floor`: the floor a unit label (호) encodes, by a digit-count
 * heuristic. All digits of the label are kept, in order; three or more
 * digits drop the last two (the line number), two digits keep the first,
 * one digit is the floor itself, no digit leaves the floor undefined.
 */
module Floors {
  import opened Options
  import opened Digits

  function ExtractFloor(ho: string): (r: Option<nat>)
    ensures r.None? <==> !HasDigit(ho)
  {
    var digits := OnlyDigits(ho);
    if |digits| == 0 then None
    else if |digits| >= 3 then
      (if digits[..|digits| - 2] != [] then Some(Value(digits[..|digits| - 2])) else None)
    else if |digits| == 2 then Some(DigitValue(digits[0]))
    else Some(Value(digits))
  }

  /**
   * The heuristic as arithmetic on the number the label's digits spell:
   * three digits or more give that number divided by 100, two digits give
   * it divided by 10, one digit gives the number itself. Only the digits
   * matter: the floor of a label is the floor of its digits.
   */
  lemma ExtractFloorCases(ho: string)
    ensures var d := OnlyDigits(ho);
      && (|d| >= 3 ==> ExtractFloor(ho) == Some(Value(d) / 100))
      && (|d| == 2 ==> ExtractFloor(ho) == Some(Value(d) / 10))
      && (|d| == 1 ==> ExtractFloor(ho) == Some(Value(d)))
      && ExtractFloor(ho) == ExtractFloor(d)
  {
    var d := OnlyDigits(ho);
    if |d| >= 3 {
      ValueDropTwo(d);
    } else if |d| == 2 {
      assert d[..1][..0] == [] && d[..1][0] == d[0];
      assert Value(d[..1]) == DigitValue(d[0]);
      assert Value(d) == 10 * DigitValue(d[0]) + DigitValue(d[1]);
    }
  }

  /** Dropping the last two digits divides the number by 100. */
  lemma ValueDropTwo(d: string)
    requires AllDigits(d) && |d| >= 2
    ensures Value(d[..|d| - 2]) == Value(d) / 100
  {
    var n := |d|;
    assert d[..n - 1][..n - 2] == d[..n - 2];
    assert Value(d) == 100 * Value(d[..n - 2]) + 10 * DigitValue(d[n - 2]) + DigitValue(d[n - 1]);
  }

  /**
   * The labels the heuristic is made for: floor `f` followed by a two-digit
   * line number `l` (e.g. 1101, 702) give back floor `f`.
   */
  lemma FloorOfUnitNumber(f: nat, l: nat)
    requires f >= 1 && l < 100
    ensures ExtractFloor(NatToString(100 * f + l)) == Some(f)
  {
    var s := NatToString(100 * f + l);
    NatToStringHundreds(f, l);
    assert s[..|s| - 2] == NatToString(f);
    ValueOfNatToString(f);
  }

  lemma Text1101()
    ensures NatToString(1101) == "1101"
  {
    assert NatToString(1) == "1";
    assert NatToString(11) == NatToString(1) + [DigitChar(1)];
    assert NatToString(110) == NatToString(11) + [DigitChar(0)];
    assert NatToString(1101) == NatToString(110) + [DigitChar(1)];
  }

  lemma Text702()
    ensures NatToString(702) == "702"
  {
    assert NatToString(7) == "7";
    assert NatToString(70) == NatToString(7) + [DigitChar(0)];
    assert NatToString(702) == NatToString(70) + [DigitChar(2)];
  }

  lemma Floor12()
    ensures ExtractFloor("12") == Some(1)
  {
    ExtractFloorCases("12");
    assert Value("12") == 12 by { assert "12"[..1] == "1"; }
  }

  /** "1101" → 11, "702" → 7, "12" → 1, "" → undefined. */
  lemma ExtractFloorExamples()
    ensures ExtractFloor("1101") == Some(11)
    ensures ExtractFloor("702") == Some(7)
    ensures ExtractFloor("12") == Some(1)
    ensures ExtractFloor("") == None
  {
    FloorOfUnitNumber(11, 1);
    Text1101();
    FloorOfUnitNumber(7, 2);
    Text702();
    Floor12();
  }

  /**
   * The heuristic's known limitation: a basement label such as "B101" loses
   * its 'B' and reads as floor 1, the same as "101".
   */
  lemma BasementReadsAsFirstFloor()
    ensures ExtractFloor("B101") == ExtractFloor("101") == Some(1)
  {
    BasementDigits();
    FloorOfUnitNumber(1, 1);
    Text101();
  }

  lemma Text101()
    ensures NatToString(101) == "101"
  {
    assert NatToString(1) == "1";
    assert NatToString(10) == NatToString(1) + [DigitChar(0)];
    assert NatToString(101) == NatToString(10) + [DigitChar(1)];
  }

  lemma BasementDigits()
    ensures OnlyDigits("B101") == OnlyDigits("101")
  {
    assert "B101" == ['B'] + "101";
    assert "B101"[1..] == "101";
  }
}
