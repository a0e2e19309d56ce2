/**
 The row-loading loop of `seed`: every CSV row, in file order, has its join
 date parsed and is then inserted into the `unicorns` table with
 `ON CONFLICT (company) DO NOTHING`. A date that does not parse throws, which
 ends the loop; the error is caught, so the rows already inserted stay and the
 "Seeded N unicorns" line is not reached. The table is a map keyed by company.
 */
module Loader {
  import opened JsStrings
  import opened RowParser

  /** One record read from the CSV file, by its header columns. */
  datatype Row = Row(
    company: string,
    valuation: string,        // "Valuation ($B)"
    dateJoined: string,       // "Date Joined"
    country: string,
    city: string,
    industry: string,
    selectInvestors: string)  // "Select Investors"

  /** The non-key columns of a stored `unicorns` row. The valuation is the
      cleaned text handed to `parseFloat`. */
  datatype Record = Record(
    valuation: string,
    dateJoined: string,
    country: string,
    city: string,
    industry: string,
    selectInvestors: string)

  type Table = map<string, Record>

  /** How the run ends: the summary line with the number of rows read, or the
      caught error. */
  datatype Outcome = Seeded(count: nat) | Failed

  predicate DateOk(row: Row)
  {
    ParseDate(row.dateJoined).Ok?
  }

  predicate AllDatesOk(rows: seq<Row>)
  {
    forall i :: 0 <= i < |rows| ==> DateOk(rows[i])
  }

  /** The insert parameters of a row whose date has been parsed to `date`:
      the valuation is cleaned, every other column is passed on verbatim. */
  function MakeRecord(row: Row, date: string): (r: Record)
    ensures r.valuation == CleanValuation(row.valuation) && r.dateJoined == date
    ensures r.country == row.country && r.city == row.city
    ensures r.industry == row.industry && r.selectInvestors == row.selectInvestors
  {
    Record(CleanValuation(row.valuation), date, row.country, row.city, row.industry, row.selectInvestors)
  }

  /** The record a row with a valid date is stored as. */
  function Entry(row: Row): (r: Record)
    requires DateOk(row)
    ensures ParseDate(row.dateJoined) == Ok(r.dateJoined)
    ensures r.valuation == CleanValuation(row.valuation)
    ensures r.country == row.country && r.city == row.city
    ensures r.industry == row.industry && r.selectInvestors == row.selectInvestors
  {
    MakeRecord(row, ParseDate(row.dateJoined).value)
  }

  /** The parameters of one insert: the key column and the rest. */
  datatype InsertParams = InsertParams(company: string, record: Record)

  /** `INSERT ... ON CONFLICT (company) DO NOTHING` on the abstract table. */
  function InsertOrIgnore(t: Table, company: string, rec: Record): (r: Table)
    ensures r.Keys == t.Keys + {company}
    ensures company in t ==> r == t
    ensures company !in t ==> r[company] == rec
    ensures forall c :: c in t ==> r[c] == t[c]
  {
    if company in t then t else t[company := rec]
  }

  /** The insert parameters of each row, in file order. */
  function Params(rows: seq<Row>): (ps: seq<InsertParams>)
    requires AllDatesOk(rows)
    ensures |ps| == |rows|
    ensures forall i :: 0 <= i < |rows| ==> ps[i] == InsertParams(rows[i].company, Entry(rows[i]))
    decreases |rows|
  {
    if rows == [] then []
    else
      var n := |rows| - 1;
      assert AllDatesOk(rows[..n]);
      Params(rows[..n]) + [InsertParams(rows[n].company, Entry(rows[n]))]
  }

  /** The table after issuing the inserts `ps` one by one against `t`. */
  function Apply(t: Table, ps: seq<InsertParams>): (r: Table)
    ensures t.Keys <= r.Keys
    decreases |ps|
  {
    if ps == [] then t
    else
      var n := |ps| - 1;
      InsertOrIgnore(Apply(t, ps[..n]), ps[n].company, ps[n].record)
  }

  /** The companies named in `ps`. */
  function Companies(ps: seq<InsertParams>): set<string>
    decreases |ps|
  {
    if ps == [] then {} else Companies(ps[..|ps| - 1]) + {ps[|ps| - 1].company}
  }

  /** A company is among `Companies(ps)` exactly when some insert carries it. */
  lemma {:induction false} CompaniesMember(ps: seq<InsertParams>, c: string)
    ensures c in Companies(ps) <==> exists i :: 0 <= i < |ps| && ps[i].company == c
  {
    if ps != [] {
      var n := |ps| - 1;
      CompaniesMember(ps[..n], c);
      if c in Companies(ps[..n]) {
        var i :| 0 <= i < n && ps[..n][i].company == c;
        assert ps[i].company == c;
      }
      if exists i :: 0 <= i < |ps| && ps[i].company == c {
        var i :| 0 <= i < |ps| && ps[i].company == c;
        if i < n {
          assert ps[..n][i].company == c;
        }
      }
    }
  }

  /** The index of the first row whose date does not parse, or `|rows|`. */
  function FirstBad(rows: seq<Row>): (k: nat)
    ensures k <= |rows|
    ensures AllDatesOk(rows[..k])
    ensures k < |rows| ==> !DateOk(rows[k])
  {
    if rows == [] then 0
    else if !DateOk(rows[0]) then 0
    else
      var k := 1 + FirstBad(rows[1..]);
      assert forall i :: 1 <= i < k ==> rows[..k][i] == rows[1..][..k - 1][i - 1];
      k
  }

  /** The `unicorns` table as seen through the connection. */
  class Database {
    var unicorns: Table

    constructor (initial: Table)
      ensures unicorns == initial
    {
      unicorns := initial;
    }

    /** One parameterised insert-or-ignore statement. */
    method Insert(company: string, rec: Record)
      modifies this
      ensures unicorns == InsertOrIgnore(old(unicorns), company, rec)
    {
      if company !in unicorns {
        unicorns := unicorns[company := rec];
      }
    }
  }

  /** The loop of `seed` over the rows already read from the CSV file: the
      table ends up with the inserts of the rows before the first bad date,
      and the count of rows read is reported only when there is none. */
  method Seed(db: Database, rows: seq<Row>) returns (outcome: Outcome)
    modifies db
    ensures db.unicorns == Apply(old(db.unicorns), Params(rows[..FirstBad(rows)]))
    ensures outcome == if FirstBad(rows) == |rows| then Seeded(|rows|) else Failed
  {
    var i := 0;
    while i < |rows|
      invariant 0 <= i <= |rows|
      invariant AllDatesOk(rows[..i])
      invariant db.unicorns == Apply(old(db.unicorns), Params(rows[..i]))
    {
      var row := rows[i];
      var formattedDate := ParseDate(row.dateJoined);
      if formattedDate.Err? {
        FirstBadAt(rows, i);
        return Failed;
      }
      db.Insert(row.company, MakeRecord(row, formattedDate.value));
      ParamsStep(rows, i);
      ApplyLast(old(db.unicorns), Params(rows[..i]), InsertParams(row.company, Entry(row)));
      i := i + 1;
    }
    FirstBadAt(rows, i);
    assert rows[..i] == rows;
    return Seeded(|rows|);
  }

  /** One more row adds its insert at the end. */
  lemma ParamsStep(rows: seq<Row>, i: nat)
    requires i < |rows| && AllDatesOk(rows[..i]) && DateOk(rows[i])
    ensures AllDatesOk(rows[..i + 1])
    ensures Params(rows[..i + 1]) == Params(rows[..i]) + [InsertParams(rows[i].company, Entry(rows[i]))]
  {
    assert rows[..i + 1][..i] == rows[..i];
  }

  /** The last insert acts on the table the earlier ones left. */
  lemma ApplyLast(t: Table, ps: seq<InsertParams>, p: InsertParams)
    ensures Apply(t, ps + [p]) == InsertOrIgnore(Apply(t, ps), p.company, p.record)
  {
    assert (ps + [p])[..|ps|] == ps;
  }

  /** A position with all earlier dates valid and its own date invalid (or the
      end of the rows) is the first bad one. */
  lemma {:induction false} FirstBadAt(rows: seq<Row>, i: nat)
    requires i <= |rows| && AllDatesOk(rows[..i])
    requires i < |rows| ==> !DateOk(rows[i])
    ensures FirstBad(rows) == i
  {
    if i > 0 {
      assert rows[..i][0] == rows[0];
      assert rows[1..][..i - 1] == rows[..i][1..];
      FirstBadAt(rows[1..], i - 1);
    }
  }

  /** The stored companies are those already present plus those inserted. */
  lemma {:induction false} ApplyKeys(t: Table, ps: seq<InsertParams>)
    ensures Apply(t, ps).Keys == t.Keys + Companies(ps)
  {
    if ps != [] {
      ApplyKeys(t, ps[..|ps| - 1]);
    }
  }

  /** Records already in the table are never changed. */
  lemma {:induction false} ApplyKeepsExisting(t: Table, ps: seq<InsertParams>, c: string)
    requires c in t
    ensures c in Apply(t, ps) && Apply(t, ps)[c] == t[c]
  {
    if ps != [] {
      ApplyKeepsExisting(t, ps[..|ps| - 1], c);
    }
  }

  /** First wins: a company new to the table is stored with the record of the
      first insert that carries it. */
  lemma {:induction false} ApplyFirstWins(t: Table, ps: seq<InsertParams>, i: nat)
    requires i < |ps|
    requires ps[i].company !in t
    requires forall j :: 0 <= j < i ==> ps[j].company != ps[i].company
    ensures ps[i].company in Apply(t, ps)
    ensures Apply(t, ps)[ps[i].company] == ps[i].record
  {
    var n := |ps| - 1;
    var prefix := ps[..n];
    var c := ps[i].company;
    if i == n {
      ApplyKeys(t, prefix);
      CompaniesMember(prefix, c);
      assert forall j :: 0 <= j < n ==> prefix[j] == ps[j];
    } else {
      assert forall j :: 0 <= j <= i ==> prefix[j] == ps[j];
      ApplyFirstWins(t, prefix, i);
    }
  }

  /** An insert whose company is already stored, or already inserted, changes
      nothing. */
  lemma DuplicateIgnored(t: Table, ps: seq<InsertParams>, j: nat)
    requires j < |ps|
    requires ps[j].company in t.Keys + Companies(ps[..j])
    ensures Apply(t, ps[..j + 1]) == Apply(t, ps[..j])
  {
    assert ps[..j + 1][..j] == ps[..j];
    ApplyKeys(t, ps[..j]);
  }

  /** Inserts whose companies are all stored leave the table as it is. */
  lemma {:induction false} ApplyCovered(t: Table, ps: seq<InsertParams>)
    requires Companies(ps) <= t.Keys
    ensures Apply(t, ps) == t
  {
    if ps != [] {
      ApplyCovered(t, ps[..|ps| - 1]);
    }
  }

  /** Issuing the same inserts a second time leaves the table unchanged. */
  lemma ApplyIdempotent(t: Table, ps: seq<InsertParams>)
    ensures Apply(Apply(t, ps), ps) == Apply(t, ps)
  {
    ApplyKeys(t, ps);
    ApplyCovered(Apply(t, ps), ps);
  }

  predicate DistinctCompanies(ps: seq<InsertParams>)
  {
    forall i, j :: 0 <= i < j < |ps| ==> ps[i].company != ps[j].company
  }

  /** No company repeats in `ps` exactly when none repeats before the last
      insert and the last one names a new company. */
  lemma DistinctLast(ps: seq<InsertParams>)
    requires ps != []
    ensures var n := |ps| - 1;
      DistinctCompanies(ps) <==> DistinctCompanies(ps[..n]) && ps[n].company !in Companies(ps[..n])
  {
    var n := |ps| - 1;
    var prefix := ps[..n];
    CompaniesMember(prefix, ps[n].company);
    assert forall i :: 0 <= i < n ==> prefix[i] == ps[i];
  }

  /** From an empty table, at most one record is stored per insert, and exactly
      one per insert when no company repeats. */
  lemma {:induction false} StoredCount(ps: seq<InsertParams>)
    ensures |Apply(map[], ps)| <= |ps|
    ensures |Apply(map[], ps)| == |ps| <==> DistinctCompanies(ps)
  {
    if ps != [] {
      var n := |ps| - 1;
      var prefix := ps[..n];
      var c := ps[n].company;
      StoredCount(prefix);
      ApplyKeys(map[], prefix);
      DistinctLast(ps);
      var before := Apply(map[], prefix);
      assert |Apply(map[], ps)| == |Apply(map[], ps).Keys|;
      assert |before| == |before.Keys|;
      if c !in before {
        assert Apply(map[], ps).Keys == before.Keys + {c};
      }
    }
  }

  // Statements about whole runs of the loop, in terms of the rows.

  /** The inserts of the rows name exactly the rows' companies. */
  lemma ParamsCompanies(rows: seq<Row>, c: string)
    requires AllDatesOk(rows)
    ensures c in Companies(Params(rows)) <==> exists i :: 0 <= i < |rows| && rows[i].company == c
  {
    CompaniesMember(Params(rows), c);
    if exists i :: 0 <= i < |rows| && rows[i].company == c {
      var i :| 0 <= i < |rows| && rows[i].company == c;
      assert Params(rows)[i].company == c;
    }
  }

  /** Loaded into an empty table, exactly the companies of the rows are
      stored, each under one key. */
  lemma LoadedCompanies(rows: seq<Row>, c: string)
    requires AllDatesOk(rows)
    ensures c in Apply(map[], Params(rows)) <==> exists i :: 0 <= i < |rows| && rows[i].company == c
  {
    ApplyKeys(map[], Params(rows));
    ParamsCompanies(rows, c);
  }

  /** Loaded into an empty table, each company is stored with the record of
      the first row that carries it; later rows for it are ignored. */
  lemma LoadedFirstRecord(rows: seq<Row>, i: nat)
    requires AllDatesOk(rows)
    requires i < |rows|
    requires forall j :: 0 <= j < i ==> rows[j].company != rows[i].company
    ensures rows[i].company in Apply(map[], Params(rows))
    ensures Apply(map[], Params(rows))[rows[i].company] == Entry(rows[i])
  {
    ParamsFirstOccurrence(rows, i);
    ParamsRecord(rows, i);
    ApplyFirstWins(map[], Params(rows), i);
  }

  /** A row that is the first for its company gives the first insert for it. */
  lemma ParamsFirstOccurrence(rows: seq<Row>, i: nat)
    requires AllDatesOk(rows)
    requires i < |rows|
    requires forall j :: 0 <= j < i ==> rows[j].company != rows[i].company
    ensures forall j :: 0 <= j < i ==> Params(rows)[j].company != Params(rows)[i].company
  {
  }

  /** The record inserted for a row is the row's entry. */
  lemma ParamsRecord(rows: seq<Row>, i: nat)
    requires AllDatesOk(rows)
    requires i < |rows|
    ensures Params(rows)[i].record == Entry(rows[i])
  {
  }

  /** Running the whole loop again over the same rows, on the table the first
      run left, changes nothing; it stops at the same row, or reports the same
      count, since both depend on the rows alone. */
  lemma SeedIdempotent(t: Table, rows: seq<Row>)
    ensures var ps := Params(rows[..FirstBad(rows)]);
      Apply(Apply(t, ps), ps) == Apply(t, ps)
  {
    ApplyIdempotent(t, Params(rows[..FirstBad(rows)]));
  }

  /** When the run aborts, a company that appears only from the failing row on
      and was not stored before does not reach the table. */
  lemma AbortKeepsLaterOut(t: Table, rows: seq<Row>, c: string)
    requires FirstBad(rows) < |rows|
    requires c !in t
    requires forall i :: 0 <= i < FirstBad(rows) ==> rows[i].company != c
    ensures c !in Apply(t, Params(rows[..FirstBad(rows)]))
  {
    var k := FirstBad(rows);
    ApplyKeys(t, Params(rows[..k]));
    ParamsCompanies(rows[..k], c);
  }

  /** The reported count is the number of rows read. From an empty table it
      bounds the number of records stored, and equals it exactly when no
      company repeats. */
  lemma CountVersusStored(rows: seq<Row>)
    requires AllDatesOk(rows)
    ensures |Apply(map[], Params(rows))| <= |rows|
    ensures |Apply(map[], Params(rows))| == |rows| <==>
      forall i, j :: 0 <= i < j < |rows| ==> rows[i].company != rows[j].company
  {
    StoredCount(Params(rows));
  }

  /** Two rows for the same company loaded into an empty table: one record
      is stored, the first row's; the second is ignored, not merged. */
  lemma DuplicateKeepsFirst(a: Row, b: Row)
    requires a.company == b.company && DateOk(a) && DateOk(b)
    ensures Apply(map[], Params([a, b])) == map[a.company := Entry(a)]
  {
    ParamsPair(a, b);
    SameCompanyPair(InsertParams(a.company, Entry(a)), InsertParams(b.company, Entry(b)));
  }

  /** So when the two rows differ in their details, the stored record depends
      on the row order: only the set of stored companies is order-independent. */
  lemma DuplicateOrderMatters(a: Row, b: Row)
    requires a.company == b.company && DateOk(a) && DateOk(b)
    requires Entry(a) != Entry(b)
    ensures Apply(map[], Params([a, b])) != Apply(map[], Params([b, a]))
  {
    DuplicateKeepsFirst(a, b);
    DuplicateKeepsFirst(b, a);
    SingletonsDiffer(a.company, Entry(a), Entry(b));
  }

  lemma SingletonsDiffer(company: string, x: Record, y: Record)
    requires x != y
    ensures map[company := x] != map[company := y]
  {
    assert map[company := x][company] != map[company := y][company];
  }

  lemma ParamsPair(a: Row, b: Row)
    requires DateOk(a) && DateOk(b)
    ensures Params([a, b]) == [InsertParams(a.company, Entry(a)), InsertParams(b.company, Entry(b))]
  {
  }

  /** Two inserts for one company into an empty table keep the first. */
  lemma SameCompanyPair(p: InsertParams, q: InsertParams)
    requires p.company == q.company
    ensures Apply(map[], [p, q]) == map[p.company := p.record]
  {
    ApplyLast(map[], [p], q);
    ApplyLast(map[], [], p);
  }
}
