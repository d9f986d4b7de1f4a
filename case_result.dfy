/** `_parse_case_result`: scan the rows of a search-result page for the target
    date and fill in a fixed record. The scan keeps going after a match, so a
    later matching row overwrites the fields of an earlier one, and the PDF
    fields, once set, are never cleared. */
module CaseSearch {
  import opened Wrappers
  import opened Text
  import opened Sequences
  import opened Dates
  import opened Page

  datatype CaseResult = CaseResult(
    caseFound: bool,
    listedForHearing: bool,
    hearingDate: Option<string>,
    serialNumber: Option<string>,
    courtName: Option<string>,
    pdfAvailable: bool,
    pdfUrl: Option<string>)

  /** The record the scan starts from. */
  const NotFound := CaseResult(false, false, None, None, None, false, None)

  /** Some cell's text contains `target` as a substring. */
  predicate MentionsTarget(cells: seq<string>, target: string) {
    exists i :: 0 <= i < |cells| && Contains(cells[i], target)
  }

  /** A row with at least three cells, one of which contains the target. */
  predicate RowMatches(row: Row, target: string) {
    |row.cells| >= 3 && MentionsTarget(row.cells, target)
  }

  /** A matching row that also links to a PDF. */
  predicate RowOffersPdf(row: Row, target: string) {
    RowMatches(row, target) && FirstPdfHref(row.hrefs).Some?
  }

  function Matching(target: string): Row -> bool {
    row => RowMatches(row, target)
  }

  function OfferingPdf(target: string): Row -> bool {
    row => RowOffersPdf(row, target)
  }

  /** The record the scan leaves behind, stated by what it depends on: the
      found flags, the date, the serial number and the court come from the LAST
      matching row; the PDF fields from the last matching row that had a PDF link. */
  function CaseResultFor(rows: seq<Row>, target: string): CaseResult {
    var m := LastWhere(rows, Matching(target));
    var p := LastWhere(rows, OfferingPdf(target));
    CaseResult(
      m.Some?,
      m.Some?,
      if m.Some? then Some(target) else None,
      if m.Some? then ExtractSerialNumber(m.value.cells) else None,
      if m.Some? then Some(ExtractCourtName(m.value.cells)) else None,
      p.Some?,
      if p.Some? then FirstPdfHref(p.value.hrefs) else None)
  }

  /** The shape every result has: the two flags agree and hold exactly when
      some row matches; the date is then the target; a court is then always
      named; a serial number is all digits; a PDF flag comes with a ".pdf" link. */
  lemma CaseResultShape(rows: seq<Row>, target: string)
    ensures var r := CaseResultFor(rows, target);
      && r.caseFound == r.listedForHearing
      && (r.caseFound <==> exists i :: 0 <= i < |rows| && RowMatches(rows[i], target))
      && r.hearingDate == (if r.caseFound then Some(target) else None)
      && (r.caseFound <==> r.courtName.Some?)
      && (r.serialNumber.Some? ==> r.caseFound && IsDigits(r.serialNumber.value))
      && (r.pdfAvailable <==> r.pdfUrl.Some?)
      && (r.pdfAvailable ==> r.caseFound && IsPdfHref(r.pdfUrl.value))
  {
    LastWhereIsLast(rows, Matching(target));
    LastWhereIsLast(rows, OfferingPdf(target));
    var p := LastWhere(rows, OfferingPdf(target));
    if p.Some? {
      var k :| 0 <= k < |rows| && rows[k] == p.value && OfferingPdf(target)(rows[k]);
      assert Matching(target)(rows[k]);
    }
    if exists i :: 0 <= i < |rows| && RowMatches(rows[i], target) {
      var i :| 0 <= i < |rows| && RowMatches(rows[i], target);
      assert Matching(target)(rows[i]);
    }
  }

  /** A row that does not match adds nothing to the result. */
  lemma NonMatchingRowKeepsResult(rows: seq<Row>, row: Row, target: string)
    requires !RowMatches(row, target)
    ensures CaseResultFor(rows + [row], target) == CaseResultFor(rows, target)
  {
    LastWhereSnoc(rows, row, Matching(target));
    LastWhereSnoc(rows, row, OfferingPdf(target));
  }

  /** A matching row overwrites the flags, the date, the serial number and the
      court; it overwrites the PDF fields only when it has a PDF link itself. */
  lemma MatchingRowOverwrites(rows: seq<Row>, row: Row, target: string)
    requires RowMatches(row, target)
    ensures CaseResultFor(rows + [row], target) ==
      var before, pdfLink := CaseResultFor(rows, target), FirstPdfHref(row.hrefs);
      CaseResult(true, true, Some(target),
        ExtractSerialNumber(row.cells), Some(ExtractCourtName(row.cells)),
        if pdfLink.Some? then true else before.pdfAvailable,
        if pdfLink.Some? then pdfLink else before.pdfUrl)
  {
    LastWhereSnoc(rows, row, Matching(target));
    LastWhereSnoc(rows, row, OfferingPdf(target));
  }

  /** The cell loop of ecourts_scraper.py:125-141: walk the cells until one contains the
      target and stop there (the `break`). Returns that cell's index, or the
      number of cells when none does. */
  method FindTargetCell(cells: seq<string>, target: string) returns (j: nat)
    ensures j <= |cells|
    ensures j < |cells| ==> Contains(cells[j], target)
    ensures forall i :: 0 <= i < j ==> !Contains(cells[i], target)
  {
    j := 0;
    while j < |cells|
      invariant 0 <= j <= |cells|
      invariant forall i :: 0 <= i < j ==> !Contains(cells[i], target)
    {
      if Contains(cells[j], target) {
        break;
      }
      j := j + 1;
    }
  }

  /** The row loop of ecourts_scraper.py:121-141: every row with at least three cells is
      searched for the target; on a hit its fields overwrite the record, and
      the scan goes on with the next row. */
  method ScanCaseRows(rows: seq<Row>, target: string) returns (info: CaseResult)
    ensures info == CaseResultFor(rows, target)
  {
    info := NotFound;
    var k := 0;
    assert info == CaseResultFor(rows[..k], target) by {
      assert rows[..k] == [];
    }
    while k < |rows|
      invariant 0 <= k <= |rows|
      invariant info == CaseResultFor(rows[..k], target)
    {
      var row := rows[k];
      var cells := row.cells;
      assert rows[..k + 1] == rows[..k] + [row];
      var hit := false;
      if |cells| >= 3 {
        var j := FindTargetCell(cells, target);
        hit := j < |cells|;
      }
      if hit {
        assert RowMatches(row, target);
        MatchingRowOverwrites(rows[..k], row, target);
        info := info.(caseFound := true, listedForHearing := true, hearingDate := Some(target));
        info := info.(serialNumber := ExtractSerialNumber(cells), courtName := Some(ExtractCourtName(cells)));
        var pdfLink := FirstPdfHref(row.hrefs);
        if pdfLink.Some? {
          info := info.(pdfAvailable := true, pdfUrl := pdfLink);
        }
      } else {
        NonMatchingRowKeepsResult(rows[..k], row, target);
      }
      k := k + 1;
    }
    assert rows[..k] == rows;
  }

  /** `_parse_case_result` without the file write: resolve the target date,
      render it as DD-MM-YYYY and scan. Past the last representable date,
      "tomorrow" raises, which the callers turn into an error record. */
  method ParseCaseResult(rows: seq<Row>, now: Date, dateType: string) returns (res: Result<CaseResult>)
    requires ValidDate(now)
    ensures res.Err? <==> dateType == "tomorrow" && now == LastDate
    ensures res.Err? ==> res.message == OutOfRange
    ensures res.Ok? ==>
      TargetDate(now, dateType).Some? &&
      res.value == CaseResultFor(rows, FormatDayMonthYear(TargetDate(now, dateType).value))
  {
    var target := TargetDate(now, dateType);
    if target.None? {
      return Err(OutOfRange);
    }
    var info := ScanCaseRows(rows, FormatDayMonthYear(target.value));
    res := Ok(info);
  }

  /** The result is the starting record exactly when no row matches. */
  lemma NotFoundIffNoMatch(rows: seq<Row>, target: string)
    ensures CaseResultFor(rows, target) == NotFound <==>
      forall i :: 0 <= i < |rows| ==> !RowMatches(rows[i], target)
  {
    CaseResultShape(rows, target);
  }

  /** A row with fewer than three cells changes nothing, wherever it stands
      and whatever its cells and links say. */
  lemma ShortRowIsIgnored(before: seq<Row>, row: Row, after: seq<Row>, target: string)
    requires |row.cells| < 3
    ensures CaseResultFor(before + [row] + after, target) == CaseResultFor(before + after, target)
  {
    LastWhereIgnoresInsert(before, row, after, Matching(target));
    LastWhereIgnoresInsert(before, row, after, OfferingPdf(target));
  }

  /** The serial number and the court are read from the last matching row. */
  lemma FieldsFromLastMatch(rows: seq<Row>, target: string, i: int)
    requires 0 <= i < |rows| && RowMatches(rows[i], target)
    requires forall j :: i < j < |rows| ==> !RowMatches(rows[j], target)
    ensures CaseResultFor(rows, target).hearingDate == Some(target)
    ensures CaseResultFor(rows, target).serialNumber == ExtractSerialNumber(rows[i].cells)
    ensures CaseResultFor(rows, target).courtName == Some(ExtractCourtName(rows[i].cells))
  {
    assert Matching(target)(rows[i]);
    assert forall j :: i < j < |rows| ==> !Matching(target)(rows[j]);
    LastWhereAt(rows, Matching(target), i);
  }

  /** The PDF link is the first ".pdf" href of the last matching row that has one. */
  lemma PdfFromLastPdfRow(rows: seq<Row>, target: string, i: int)
    requires 0 <= i < |rows| && RowOffersPdf(rows[i], target)
    requires forall j :: i < j < |rows| ==> !RowOffersPdf(rows[j], target)
    ensures CaseResultFor(rows, target).pdfAvailable
    ensures CaseResultFor(rows, target).pdfUrl == FirstPdfHref(rows[i].hrefs)
  {
    assert OfferingPdf(target)(rows[i]);
    assert forall j :: i < j < |rows| ==> !OfferingPdf(target)(rows[j]);
    LastWhereAt(rows, OfferingPdf(target), i);
  }

  /** A later matching row without a PDF link takes over the serial number and
      the court but leaves the earlier row's PDF link in place. */
  lemma LaterMatchKeepsEarlierPdf(rows: seq<Row>, first: Row, second: Row, target: string)
    requires RowOffersPdf(first, target)
    requires RowMatches(second, target) && FirstPdfHref(second.hrefs).None?
    ensures CaseResultFor(rows + [first, second], target).serialNumber == ExtractSerialNumber(second.cells)
    ensures CaseResultFor(rows + [first, second], target).courtName == Some(ExtractCourtName(second.cells))
    ensures CaseResultFor(rows + [first, second], target).pdfUrl == FirstPdfHref(first.hrefs)
  {
    assert rows + [first, second] == (rows + [first]) + [second];
    LastWhereSnoc(rows + [first], second, Matching(target));
    LastWhereSnoc(rows + [first], second, OfferingPdf(target));
    LastWhereSnoc(rows, first, OfferingPdf(target));
  }
}
