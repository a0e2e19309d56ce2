/**
 Consequences of the row parser's contracts for concrete inputs: the layout of
 a well-formed date, and examples of date and valuation cleanup.
 */
module ParserExamples {
  import opened JsStrings
  import opened RowParser

  /** With a one- or two-character day and month and a four-character year
      the output has the `YYYY-MM-DD` layout: ten characters, dashes at 4 and 7,
      the year unchanged in front. */
  lemma ParseDateLayout(day: string, month: string, year: string)
    requires 1 <= |day| <= 2 && 1 <= |month| <= 2 && |year| == 4
    requires '/' !in day && '/' !in month && '/' !in year
    ensures var r := year + "-" + Pad2(month) + "-" + Pad2(day);
      && ParseDate(day + "/" + month + "/" + year) == Ok(r)
      && |r| == 10 && r[4] == '-' && r[7] == '-'
      && r[..4] == year && r[5..7] == Pad2(month) && r[8..] == Pad2(day)
  {
    ParseDateOfParts(day, month, year);
    PaddedLayout(day, month, year);
  }

  /** The padded output of short parts has the ten-character layout. */
  lemma PaddedLayout(day: string, month: string, year: string)
    requires 1 <= |day| <= 2 && 1 <= |month| <= 2 && |year| == 4
    ensures var r := year + "-" + Pad2(month) + "-" + Pad2(day);
      && |r| == 10 && r[4] == '-' && r[7] == '-'
      && r[..4] == year && r[5..7] == Pad2(month) && r[8..] == Pad2(day)
  {
    var m, d := Pad2(month), Pad2(day);
    assert |m| == 2 && |d| == 2;
    DashedLayout(year, m, d);
  }

  /** Where the parts of `y-m-d` sit. */
  lemma DashedLayout(y: string, m: string, d: string)
    ensures var r := y + "-" + m + "-" + d;
      && |r| == |y| + |m| + |d| + 2 && r[|y|] == '-' && r[|y| + 1 + |m|] == '-'
      && r[..|y|] == y && r[|y| + 1..|y| + 1 + |m|] == m && r[|y| + |m| + 2..] == d
  {
    var r := y + "-" + m + "-" + d;
    assert r == y + ("-" + m + "-" + d);
  }

  /** `ParseDateOfParts` for a date given as one string. */
  lemma DateOfText(dateString: string, day: string, month: string, year: string)
    requires '/' !in day && '/' !in month && '/' !in year
    requires dateString == day + "/" + month + "/" + year
    ensures ParseDate(dateString) == Ok(year + "-" + Pad2(month) + "-" + Pad2(day))
  {
    ParseDateOfParts(day, month, year);
  }

  /** A two-character part is kept as it is. */
  lemma Pad2TwoChars(a: char, b: char)
    ensures Pad2([a, b]) == [a, b]
  {
  }

  /** A one-character part gets one leading zero. */
  lemma Pad2OneChar(c: char)
    ensures Pad2([c]) == ['0', c]
  {
    assert Repeat('0', 1) == ['0'];
  }

  /** A day-first date with one-digit day and month. */
  lemma ParseDateShortExample()
    ensures ParseDate("4/1/2022") == Ok("2022-01-04")
  {
    assert ParseDate("4/1/2022") == Ok("2022" + "-" + Pad2("1") + "-" + Pad2("4")) by {
      DateOfText("4/1/2022", "4", "1", "2022");
    }
    assert "2022" + "-" + Pad2("1") + "-" + Pad2("4") == "2022-01-04" by {
      Pad2OneChar('1');
      Pad2OneChar('4');
    }
  }

  /** A day-first date with two-digit day and month.
      The date is a parameter so that the verifier does not try to evaluate
      the call on a literal by itself. */
  lemma ParseDateLongExample(dateString: string)
    requires dateString == "21/12/2021"
    ensures ParseDate(dateString) == Ok("2021-12-21")
  {
    DateOfText(dateString, "21", "12", "2021");
    assert "2021" + "-" + Pad2("12") + "-" + Pad2("21") == "2021-12-21" by {
      Pad2TwoChars('1', '2');
      Pad2TwoChars('2', '1');
      assert "12" == ['1', '2'];
      assert "21" == ['2', '1'];
    }
  }

  /** Text without a slash, and a date with four parts, are both rejected. */
  lemma ParseDateRejectExamples()
    ensures ParseDate("badinput") == Err(CouldNotParse("badinput"))
    ensures ParseDate("1/2/3/4") == Err(CouldNotParse("1/2/3/4"))
  {
    SplitFree("badinput", '/');
    SplitCount("1/2/3/4", '/');
    assert multiset("1/2/3/4")['/'] == 3;
  }

  /** A valuation without a thousands separator loses only its `$`. */
  lemma CleanValuationPlainExample()
    ensures CleanValuation("$1.5") == "1.5"
  {
    assert "$1.5" == "$" + "1.5";
    RemoveFirstAbsent("1.5", ',');
  }

  /** A valuation with one thousands separator loses its `$` and its comma.
      As above, the text is a parameter rather than a literal. */
  lemma CleanValuationOneCommaExample(valuation: string)
    requires valuation == "$12,000.0"
    ensures CleanValuation(valuation) == "12000.0"
  {
    assert valuation == "$" + "12,000.0";
    CleanValuationAt("12,000.0", 2);
  }

  /** A valuation with two thousands separators keeps the second comma. */
  lemma CleanValuationTwoCommasExample(valuation: string, digits: string)
    requires valuation == "$1,234,567.0" && digits == "1,234,567.0"
    ensures CleanValuation(valuation) == "1234,567.0"
  {
    assert valuation == "$" + digits;
    CleanValuationAt(digits, 1);
    assert digits[..1] + digits[2..] == "1234,567.0";
  }
}
