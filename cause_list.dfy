/** `_parse_cause_list` and the summary `get_cause_list` returns: every row after
    the header with at least four cells becomes one entry, in row order. */
module CauseList {
  import opened Text
  import opened Dates
  import opened Page
  import opened Sequences

  datatype CauseListEntry = CauseListEntry(serialNo: string, caseNumber: string, parties: string, court: string)

  datatype CauseList = CauseList(date: string, cases: seq<CauseListEntry>)

  /** What `get_cause_list` returns on success (the status is always "success"). */
  datatype CauseListReport = CauseListReport(filename: string, casesCount: nat, data: CauseList)

  /** `soup.find_all('tr')[1:]`: everything but the header row (nothing for an
      empty page). */
  function DataRows(rows: seq<Row>): (r: seq<Row>)
    ensures |rows| > 0 ==> rows == [rows[0]] + r
    ensures |rows| == 0 ==> r == []
  {
    if |rows| == 0 then [] else rows[1..]
  }

  predicate IsEntryRow(row: Row) {
    |row.cells| >= 4
  }

  function EntryOf(row: Row): CauseListEntry
    requires IsEntryRow(row)
  {
    var c := row.cells;
    CauseListEntry(Strip(c[0]), Strip(c[1]), Strip(c[2]), Strip(c[3]))
  }

  /** The entries of the rows with at least four cells, in order. */
  function Entries(rows: seq<Row>): (es: seq<CauseListEntry>)
    ensures |es| == |Filter(rows, IsEntryRow)|
  {
    var kept := Filter(rows, IsEntryRow);
    seq(|kept|, k requires 0 <= k < |kept| => EntryOf(kept[k]))
  }

  /** One more row adds its entry at the end when it has at least four
      cells, and nothing otherwise. */
  lemma EntriesSnoc(rows: seq<Row>, row: Row)
    ensures Entries(rows + [row]) ==
      if IsEntryRow(row) then Entries(rows) + [EntryOf(row)] else Entries(rows)
  {
    FilterSnoc(rows, row, IsEntryRow);
  }

  /** The parse loop of ecourts_scraper.py:177-186 (the copy to a file is left out). */
  method ParseCauseList(rows: seq<Row>, now: Date) returns (list: CauseList)
    requires ValidDate(now)
    ensures list.date == FormatIso(now)
    ensures list.cases == Entries(DataRows(rows))
  {
    var caseRows := DataRows(rows);
    var cases: seq<CauseListEntry> := [];
    var k := 0;
    assert caseRows[..k] == [];
    while k < |caseRows|
      invariant 0 <= k <= |caseRows|
      invariant cases == Entries(caseRows[..k])
    {
      var cells := caseRows[k].cells;
      assert caseRows[..k + 1] == caseRows[..k] + [caseRows[k]];
      EntriesSnoc(caseRows[..k], caseRows[k]);
      if |cells| >= 4 {
        var entry := CauseListEntry(
          Strip(cells[0]), Strip(cells[1]), Strip(cells[2]),
          if |cells| > 3 then Strip(cells[3]) else "");
        cases := cases + [entry];
      }
      k := k + 1;
    }
    assert caseRows[..k] == caseRows;
    list := CauseList(FormatIso(now), cases);
  }

  /** `get_cause_list` on success: the list, the file name it is saved under
      and `cases_count`. The parse and the file name each read the clock, so
      they get separate dates. */
  method GetCauseList(rows: seq<Row>, parsedOn: Date, savedOn: Date) returns (report: CauseListReport)
    requires ValidDate(parsedOn) && ValidDate(savedOn)
    ensures report.filename == "causelist_" + FormatCompact(savedOn) + ".json"
    ensures report.data.date == FormatIso(parsedOn)
    ensures report.data.cases == Entries(DataRows(rows))
    ensures report.casesCount == |report.data.cases| == CountWhere(DataRows(rows), IsEntryRow)
  {
    var list := ParseCauseList(rows, parsedOn);
    var filename := "causelist_" + FormatCompact(savedOn) + ".json";
    FilterLength(DataRows(rows), IsEntryRow);
    report := CauseListReport(filename, |list.cases|, list);
  }

  /** One entry per row with at least four cells. */
  lemma EntriesCount(rows: seq<Row>)
    ensures |Entries(rows)| == CountWhere(rows, IsEntryRow)
  {
    FilterLength(rows, IsEntryRow);
  }

  /** Row order is kept and nothing is lost: an entry row preceded by `t` other
      entry rows gives entry number `t`, built from its own first four cells. */
  lemma EntryAtRank(rows: seq<Row>, i: int)
    requires 0 <= i < |rows| && IsEntryRow(rows[i])
    ensures CountWhere(rows[..i], IsEntryRow) < |Entries(rows)|
    ensures Entries(rows)[CountWhere(rows[..i], IsEntryRow)] == EntryOf(rows[i])
  {
    FilterAtRank(rows, IsEntryRow, i);
  }

  /** The row a well-formed entry would be rendered as: its four fields as cells. */
  function RowOf(e: CauseListEntry): Row {
    Row([e.serialNo, e.caseNumber, e.parties, e.court], [])
  }

  function RowsOf(entries: seq<CauseListEntry>): (rows: seq<Row>)
    ensures |rows| == |entries|
    ensures forall i :: 0 <= i < |entries| ==> rows[i] == RowOf(entries[i])
  {
    seq(|entries|, i requires 0 <= i < |entries| => RowOf(entries[i]))
  }

  predicate WellFormed(e: CauseListEntry) {
    Trimmed(e.serialNo) && Trimmed(e.caseNumber) && Trimmed(e.parties) && Trimmed(e.court)
  }

  /** A well-formed entry survives being rendered as a row and parsed back. */
  lemma EntryOfRowOf(e: CauseListEntry)
    requires WellFormed(e)
    ensures IsEntryRow(RowOf(e)) && EntryOf(RowOf(e)) == e
  {
    StripFixesExactlyTrimmed(e.serialNo);
    StripFixesExactlyTrimmed(e.caseNumber);
    StripFixesExactlyTrimmed(e.parties);
    StripFixesExactlyTrimmed(e.court);
  }

  /** Entries whose fields carry no surrounding whitespace come back unchanged
      from one row per entry. */
  lemma {:induction false} EntriesRoundTrip(entries: seq<CauseListEntry>)
    requires forall i :: 0 <= i < |entries| ==> WellFormed(entries[i])
    ensures Entries(RowsOf(entries)) == entries
    decreases |entries|
  {
    if entries != [] {
      var n := |entries|;
      var init := entries[..n - 1];
      var e := entries[n - 1];
      assert entries == init + [e];
      var rows := RowsOf(entries);
      assert rows[..n - 1] == RowsOf(init);
      assert rows[n - 1] == RowOf(e);
      EntriesRoundTrip(init);
      EntryOfRowOf(e);
      assert Entries(rows) == Entries(rows[..n - 1]) + [EntryOf(rows[n - 1])];
      assert Entries(rows) == init + [e];
    }
  }

  lemma CauseListRoundTrip(header: Row, entries: seq<CauseListEntry>)
    requires forall i :: 0 <= i < |entries| ==> WellFormed(entries[i])
    ensures Entries(DataRows([header] + RowsOf(entries))) == entries
  {
    assert DataRows([header] + RowsOf(entries)) == RowsOf(entries);
    EntriesRoundTrip(entries);
  }
}
