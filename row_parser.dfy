/**
 The per-row transformations of the seed script: turning the day-first
 `D/M/YYYY` join date into `YYYY-MM-DD`, and stripping the currency marks from
 the valuation text before it is handed to `parseFloat`.
 */
module RowParser {
  import opened JsStrings

  datatype Result<+T, +E> = Ok(value: T) | Err(error: E)

  /** `parseDate` throws a bare `Error()` after warning about the input. */
  datatype DateError = CouldNotParse(input: string)

  /** `part.padStart(2, '0')`. */
  function Pad2(part: string): (r: string)
    ensures |r| == (if |part| < 2 then 2 else |part|)
  {
    PadStart(part, 2, '0')
  }

  /** `parseDate`: split on `/`; with exactly three parts emit
      `year-month-day` with the day and month padded, otherwise fail with an
      error that carries the input. */
  function ParseDate(dateString: string): (r: Result<string, DateError>)
    ensures r.Err? ==> r.error == CouldNotParse(dateString)
  {
    var parts := Split(dateString, '/');
    if |parts| == 3 then
      var day := Pad2(parts[0]);
      var month := Pad2(parts[1]);
      var year := parts[2];
      Ok(year + "-" + month + "-" + day)
    else
      Err(CouldNotParse(dateString))
  }

  /** The date parses exactly when it holds exactly two slashes. */
  lemma ParseDateSucceedsIff(dateString: string)
    ensures ParseDate(dateString).Ok? <==> multiset(dateString)['/'] == 2
    ensures ParseDate(dateString).Err? ==> ParseDate(dateString).error == CouldNotParse(dateString)
  {
    SplitCount(dateString, '/');
  }

  /** A date written `day/month/year` (no part containing `/`) comes out as
      the year verbatim, the padded month and the padded day. */
  lemma ParseDateOfParts(day: string, month: string, year: string)
    requires '/' !in day && '/' !in month && '/' !in year
    ensures ParseDate(day + "/" + month + "/" + year) == Ok(year + "-" + Pad2(month) + "-" + Pad2(day))
  {
    var parts := [day, month, year];
    SplitJoin(parts, '/');
    JoinThree(day, month, year, '/');
  }

  /** Conversely, every accepted input is `day/month/year` for slash-free parts,
      and the output is built from exactly those parts. */
  lemma ParseDateAccepted(dateString: string)
    requires ParseDate(dateString).Ok?
    ensures var p := Split(dateString, '/');
      && |p| == 3
      && '/' !in p[0] && '/' !in p[1] && '/' !in p[2]
      && dateString == p[0] + "/" + p[1] + "/" + p[2]
      && ParseDate(dateString).value == p[2] + "-" + Pad2(p[1]) + "-" + Pad2(p[0])
  {
    var p := Split(dateString, '/');
    JoinSplit(dateString, '/');
    SplitPartsFree(dateString, '/');
    assert p == [p[0], p[1], p[2]];
    JoinThree(p[0], p[1], p[2], '/');
  }

  /** Padding: the part comes out at least two characters long, unchanged at
      the end (never truncated), with only zeros in front of it. */
  lemma Pad2Shape(part: string)
    ensures |Pad2(part)| == (if |part| < 2 then 2 else |part|)
    ensures Pad2(part)[|Pad2(part)| - |part|..] == part
    ensures forall i :: 0 <= i < |Pad2(part)| - |part| ==> Pad2(part)[i] == '0'
    ensures Pad2("") == "00"
  {
    PadStartShape(part, 2, '0');
    assert Repeat('0', 2) == "00";
  }

  /** `valuation.replace('$', '').replace(',', '')`, the text given to
      `parseFloat`. */
  function CleanValuation(valuation: string): (r: string)
    ensures |valuation| - 2 <= |r| <= |valuation|
  {
    RemoveFirst(RemoveFirst(valuation, '$'), ',')
  }

  /** Exactly one `$` and one `,` are dropped when present, nothing else: any
      second comma survives. */
  lemma CleanValuationMultiset(valuation: string)
    ensures multiset(CleanValuation(valuation)) == multiset(valuation) - multiset{'$'} - multiset{','}
  {
    RemoveFirstMultiset(valuation, '$');
    RemoveFirstMultiset(RemoveFirst(valuation, '$'), ',');
  }

  /** For a `$` followed by text whose first comma is at `i`, the result is that
      text with only position `i` cut out. */
  lemma CleanValuationAt(digits: string, i: nat)
    requires i < |digits| && digits[i] == ',' && ',' !in digits[..i]
    ensures CleanValuation("$" + digits) == digits[..i] + digits[i + 1..]
  {
    assert ("$" + digits)[1..] == digits;
    RemoveFirstAt(digits, ',', i);
  }

  /** Text without `$` and `,` passes through unchanged. */
  lemma CleanValuationPlain(valuation: string)
    requires '$' !in valuation && ',' !in valuation
    ensures CleanValuation(valuation) == valuation
  {
    RemoveFirstAbsent(valuation, '$');
    RemoveFirstAbsent(valuation, ',');
  }
}
