# Seeding the `unicorns` table: a Dafny model

The seed script of natural-language-postgres reads `unicorns.csv` and inserts
each row into a PostgreSQL table `unicorns`. This project models the logic in
`lib/seed.ts` that is not a call into `pg`, `fs`, `csv-parser` or the console.
That logic has three parts:

- `parseDate` turns a day-first `D/M/YYYY` join date into `YYYY-MM-DD`.
- The valuation cleanup `replace('$', '').replace(',', '')` prepares the text
  for `parseFloat`.
- The row loop parses each date and issues a parameterised
  `INSERT ... ON CONFLICT (company) DO NOTHING`. The first bad date throws, the
  error is caught, and the summary line `Seeded N unicorns` is skipped.

Files and modules:

- `js_strings.dfy`, module `JsStrings`: the three JavaScript string operations
  the script calls, in the form it calls them. These are `split` on one
  character, `padStart` with a one-character fill, and `replace` with a string
  pattern, which removes only the first occurrence. `Join` and `Repeat` are
  specification helpers the script never calls: `Join` is the inverse that
  `split` is proved against, and `Repeat` is the fill of `padStart`.
- `row_parser.dfy`, module `RowParser`: `ParseDate` (returning a `Result`
  whose error stands for the thrown `Error()`), `Pad2` and `CleanValuation`,
  with their general properties.
- `parser_examples.dfy`, module `ParserExamples`: the `YYYY-MM-DD` layout of a
  well-formed date, plus examples of date and valuation cleanup.
- `loader.dfy`, module `Loader`: the raw CSV `Row`, the stored `Record`, and
  the table as a `map` from company to record, held by the class `Database`.
  The method `Seed` holds the loop. The reasoning about the table is done over
  the insert parameters (`InsertParams`) that each row produces.

`Seed` is proved against two functions. `Apply` is the table after a sequence
of insert-or-ignore statements. `FirstBad` is the index of the first row whose
date does not parse. The lemmas then show first-wins de-duplication,
idempotence, the abort-prefix behaviour and what the reported count means.

Some behaviours of the code worth stating:

- The code does not trim the other columns; they pass through unchanged.
- `replace('$', '')` removes the first `$` wherever it is, not only one in
  leading position.
- A bad date does not end the process with an error. It is caught at
  lib/seed.ts:82-83, so `seed` finishes normally after logging, and the rows
  inserted before it stay.
- The set of stored companies does not depend on the row order, but the stored
  records can: for two rows with the same company, the first one's details are
  kept (`Loader.DuplicateOrderMatters`). This shows in the database only when
  the two rows still differ after `parseFloat` and the `DECIMAL(10, 2)` column
  type; `$1.5` and `$1.50`, for instance, store the same valuation. The model
  compares the cleaned text.

## Model

| member | source | states |
|---|---|---|
| `JsStrings.Split` | lib/seed.ts:11 | `split` on one character always yields at least one part, even for the empty string. |
| `JsStrings.JoinSplit` | lib/seed.ts:11 | Joining the parts of `split` with the separator gives back the original string. |
| `JsStrings.SplitJoin` | lib/seed.ts:11 | Splitting a join of separator-free parts gives back exactly those parts. |
| `JsStrings.SplitCount` | lib/seed.ts:11-12 | The number of parts is the number of separators plus one, so three parts means exactly two slashes. |
| `JsStrings.SplitPartsFree` | lib/seed.ts:11 | No part produced by `split` contains the separator. |
| `JsStrings.Repeat` | lib/seed.ts:13-14 | The fill has the requested length and consists only of the fill character. |
| `JsStrings.PadStart` | lib/seed.ts:13-14 | `padStart` returns exactly `n` characters when `s` is shorter than `n`, and otherwise keeps the length of `s`; it never truncates. |
| `JsStrings.PadStartShape` | lib/seed.ts:13-14 | `padStart` yields the larger of `n` and the length of `s`, ends with `s` unchanged, and has only fill characters in front of it. |
| `JsStrings.RemoveFirst` | lib/seed.ts:71 | `replace` with a one-character pattern and an empty replacement removes at most one character. |
| `JsStrings.RemoveFirstAbsent` | lib/seed.ts:71 | `replace` with an absent pattern leaves the string unchanged. |
| `JsStrings.RemoveFirstAt` | lib/seed.ts:71 | `replace` cuts out exactly the first occurrence and keeps everything before and after it in order. |
| `JsStrings.RemoveFirstMultiset` | lib/seed.ts:71 | Exactly one occurrence disappears when there is one; every other character, later occurrences included, stays. |
| `RowParser.ParseDate` | lib/seed.ts:10-20 | When `parseDate` fails, the error is about the input string it was given. |
| `RowParser.ParseDateSucceedsIff` | lib/seed.ts:11-19 | `parseDate` succeeds if and only if the input has exactly two slashes; otherwise it fails, with the input as the error's subject. |
| `RowParser.ParseDateOfParts` | lib/seed.ts:11-16 | For slash-free day, month and year, `day/month/year` becomes `year-pad2(month)-pad2(day)`, with the year verbatim. |
| `RowParser.ParseDateAccepted` | lib/seed.ts:11-16 | Every accepted input is `p0/p1/p2` for slash-free parts, and the output is `p2-pad2(p1)-pad2(p0)`. |
| `RowParser.Pad2` | lib/seed.ts:13-14 | A padded day or month is two characters long when the part is shorter, and keeps its own length otherwise. |
| `RowParser.Pad2Shape` | lib/seed.ts:13-14 | A padded part is at least two characters long, ends with the part unchanged (never truncated), and has only `0` in front of it; the empty part becomes `00`. |
| `RowParser.CleanValuation` | lib/seed.ts:71 | The cleanup drops at most two characters and never adds any. |
| `RowParser.CleanValuationMultiset` | lib/seed.ts:71 | The cleanup drops at most one `$` and one `,` and keeps every other character, including any second comma. |
| `RowParser.CleanValuationAt` | lib/seed.ts:71 | For `$` followed by text whose first comma is at `i`, the result is that text with only position `i` removed. |
| `RowParser.CleanValuationPlain` | lib/seed.ts:71 | Text without `$` and `,` passes through unchanged. |
| `ParserExamples.ParseDateLayout` | lib/seed.ts:9-16 | A one- or two-character day and month with a four-character year give a ten-character `YYYY-MM-DD` with dashes at positions 4 and 7. |
| `ParserExamples.ParseDateShortExample` | lib/seed.ts:10-16 | `4/1/2022` becomes `2022-01-04`. |
| `ParserExamples.ParseDateLongExample` | lib/seed.ts:10-16 | `21/12/2021` becomes `2021-12-21`. |
| `ParserExamples.ParseDateRejectExamples` | lib/seed.ts:11-19 | `badinput` (no slash) and `1/2/3/4` (four parts) are both rejected. |
| `ParserExamples.CleanValuationPlainExample` | lib/seed.ts:71 | `$1.5` becomes `1.5`. |
| `ParserExamples.CleanValuationOneCommaExample` | lib/seed.ts:71 | `$12,000.0` becomes `12000.0`. |
| `ParserExamples.CleanValuationTwoCommasExample` | lib/seed.ts:71 | `$1,234,567.0` becomes `1234,567.0`: only the first comma is removed. |
| `Loader.InsertOrIgnore` | lib/seed.ts:63-67 | Insert-or-ignore adds the company if it is new and leaves every existing record unchanged; on a conflict the table is unchanged. |
| `Loader.MakeRecord` | lib/seed.ts:69-77 | The insert parameters hold the cleaned valuation, the given formatted date, and the country, city, industry and investors columns verbatim. |
| `Loader.Entry` | lib/seed.ts:61-77 | The stored date is the successful parse of the row's own `Date Joined`; the valuation is the row's cleaned valuation; the other columns are the row's. |
| `Loader.Params` | lib/seed.ts:60-77 | Each row, in file order, yields one insert whose key is its company and whose record holds its cleaned valuation, parsed date and other columns. |
| `Loader.FirstBad` | lib/seed.ts:60-61 | The index of the first row whose date fails: every earlier date parses, and that row's date does not. |
| `Loader.Database.Insert` | lib/seed.ts:63-78 | One statement changes the table exactly as insert-or-ignore does. |
| `Loader.Seed` | lib/seed.ts:60-83 | The table ends as the old table plus the inserts of the rows before the first bad date; the run reports `Seeded` with the number of rows read exactly when no date fails, and fails otherwise. |
| `Loader.Apply` | lib/seed.ts:60-79 | Running inserts against a table never removes a stored company. |
| `Loader.ApplyKeys` | lib/seed.ts:60-79 | After the loop, the stored companies are those already present plus those inserted. |
| `Loader.ApplyKeepsExisting` | lib/seed.ts:67 | A record already in the table is never changed by later inserts. |
| `Loader.ApplyFirstWins` | lib/seed.ts:60-79 | A company new to the table is stored with the record of the first insert that carries it. |
| `Loader.DuplicateIgnored` | lib/seed.ts:67 | An insert whose company is already stored, or was inserted earlier, leaves the table unchanged. |
| `Loader.ApplyCovered` | lib/seed.ts:67 | Inserts whose companies are all stored already leave the table unchanged. |
| `Loader.ApplyIdempotent` | lib/seed.ts:60-79 | Issuing the same inserts a second time leaves the table unchanged. |
| `Loader.SeedIdempotent` | lib/seed.ts:60-79 | A second run of the loop over the same rows, on the table the first run left, changes nothing. |
| `Loader.StoredCount` | lib/seed.ts:81 | From an empty table at most one record is stored per insert, and exactly one per insert if and only if no company repeats. |
| `Loader.LoadedCompanies` | lib/seed.ts:60-79 | Loaded into an empty table, a company is stored if and only if some row carries it. |
| `Loader.LoadedFirstRecord` | lib/seed.ts:60-79 | Loaded into an empty table, each company is stored with the record of the first row that carries it. |
| `Loader.AbortKeepsLaterOut` | lib/seed.ts:60-61 | When the run aborts, a company that first appears at or after the failing row, and was not stored before, is not in the table. |
| `Loader.CountVersusStored` | lib/seed.ts:81 | The reported count, the number of rows read, bounds the number of records stored from an empty table, and equals it if and only if no company repeats. |
| `Loader.DuplicateKeepsFirst` | lib/seed.ts:67 | Two rows for the same company give one stored record, the first row's; the second is ignored, not merged. |
| `Loader.DuplicateOrderMatters` | lib/seed.ts:67 | For two such rows with different details, swapping their order changes the stored record. |

## Left out

- The `pg` client lifecycle: connect, `end` in `finally`, and the log lines around them (lib/seed.ts:24-30, 84-86). This is network I/O in a foreign library; the database is only the `Database` object's map.
- Database errors from an insert, such as a NOT NULL violation or a valuation too large for `DECIMAL(10, 2)`. These would abort the loop like a bad date; the model treats every insert as succeeding.
- The `CREATE TABLE IF NOT EXISTS` statement and its column types and constraints (lib/seed.ts:33-45). The server enforces these. The generated `id` column is not modelled.
- Reading the CSV file with `fs.createReadStream` and `csv-parser`, and the promise around it (lib/seed.ts:47-57). This is file I/O, an unseen library and async events; the rows are an input sequence with all seven columns present.
- A row missing a column. JavaScript would read `undefined`, and `split` or `replace` on it would throw a `TypeError`. This is not modelled.
- `parseFloat` on the cleaned valuation (lib/seed.ts:71). This is a floating-point conversion; the stored record keeps the cleaned text.
- The `dotenv` configuration and `POSTGRES_URL` (lib/seed.ts:5, 25), and all console output (lib/seed.ts:18, 30, 45, 81, 83, 86). The outcome `Seeded(n)` or `Failed` stands for which of the two final log lines is printed.
- String lengths count Unicode code points, not UTF-16 code units as JavaScript does. For a character outside the Basic Multilingual Plane the model's `padStart` differs from JavaScript's: a day written as one emoji is padded with a `0` here, but JavaScript counts two units and leaves it as it is (lib/seed.ts:13-14). Dafny's `char` cannot hold a lone surrogate.
- JsStrings.Split: models `split` only for a one-character separator, the only form the script uses; the limit argument and regular-expression separators are not modelled.
- JsStrings.RemoveFirst: models `replace` only with a one-character string pattern and an empty replacement, the only form the script uses; replacement patterns such as `$&` are not modelled.
