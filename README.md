# eCourts scraper: the extraction core in Dafny

This project models the page-reading logic of `ECourtsScraper` in
`ecourts_scraper.py`, the part that does not touch the network or the disk:

- `_parse_case_result`: pick the target date (today, or tomorrow when the
  selector is `"tomorrow"`) and render it as `DD-MM-YYYY`. Then walk every
  table row with at least three cells. When a cell of the row contains the
  date string, overwrite the case record with that row's serial number, court
  and PDF link.
- the extractors `_extract_serial_number`, `_extract_court_name` and
  `_extract_csrf_token`, and the `.pdf` anchor lookup;
- `_parse_cause_list`: skip the header row, keep every row with at least four
  cells and turn it into an entry of four stripped fields, in row order. Also
  modelled: the `cases_count` and file name that `get_cause_list` reports.

A parsed page is given as data. Each `tr` is a `Row`: the `get_text()` of
its `td` cells, plus the `href`s of its anchors in document order. Each
`input` element is an `Input`: its `name` and `value` attributes. The wall
clock is a `Date` parameter.

Modules:

- `Wrappers`: `Option` and `Result`.
- `Sequences`: three generic searches, each with its characterising lemmas:
  - the first element satisfying a predicate;
  - the last such element;
  - the order-keeping filter and its count.
- `Text`: Python's `str.strip`, `str.isdigit`, `str.lower` and the substring
  test `in`, over ASCII.
- `Dates`: the Gregorian calendar in the range `datetime` supports. It covers:
  - the day after a date, failing after 9999-12-31 as `timedelta` addition
    does with "date value out of range";
  - a day-number reference (like `date.toordinal()`) against which "one day
    later" is proved;
  - the three `strftime` renderings, each with a reader that inverts it.
- `Page`: the row and input data, and the four first-match extractors.
- `CaseSearch`: the case-record scan, as a method with the nested row and cell
  loops. It is proved equal to a reference function `CaseResultFor`, which
  states what each field depends on.
- `CauseList`: the cause-list loop, as a method proved equal to the reference
  function `Entries`, with the count and a round trip.

**Which matching row wins.** One might expect the first matching row to win.
In the code, the `break` at `ecourts_scraper.py:141` only leaves the loop over
cells. The loop over rows goes on, so each later matching row overwrites the
found flags, the date, the serial number and the court. The PDF fields are only
ever set, never reset, so they keep the link of the last matching row that had
one. The model follows the code: see `CaseSearch.FieldsFromLastMatch`,
`CaseSearch.PdfFromLastPdfRow` and `CaseSearch.LaterMatchKeepsEarlierPdf`.

## Model

| member | source | states |
|---|---|---|
| Text.StripRemovesOnlyMargins | ecourts_scraper.py:153 | `strip()` yields a string with no surrounding whitespace, and it is the input with only whitespace cut from both ends |
| Text.StripFixesExactlyTrimmed | ecourts_scraper.py:180-185 | stripping leaves a string unchanged exactly when it has no surrounding whitespace; stripping twice is stripping once |
| Text.ContainsIffOccurs | ecourts_scraper.py:126 | the substring test `pat in text` holds exactly when `pat` occurs at some index of `text` |
| Text.LowerMapsCapitals | ecourts_scraper.py:163 | `lower()` keeps the length, maps `A`-`Z` to `a`-`z` and leaves every other character unchanged; no capital is left, so lowering twice is lowering once |
| Sequences.LastWhereIsLast | ecourts_scraper.py:121-141 | the last element satisfying a predicate is absent exactly when none does; when present it satisfies it and no later element does |
| Sequences.LastWhereIgnoresInsert | ecourts_scraper.py:122-123 | inserting an element that fails the predicate anywhere does not change the last element that satisfies it |
| Sequences.FilterAtRank | ecourts_scraper.py:177-186 | an element kept by the filter appears in the output at the position given by the number of kept elements before it |
| Dates.NextDay | ecourts_scraper.py:104 | adding one day yields a valid date, and fails exactly at 9999-12-31 |
| Dates.NextDayIsOneDayLater | ecourts_scraper.py:104 | the next day's day number is exactly one more than the date's |
| Dates.OrdinalInjective | ecourts_scraper.py:104 | different valid dates have different day numbers, so the day number is a faithful reference |
| Dates.TargetDate | ecourts_scraper.py:102-104 | the target is `now` for any selector but "tomorrow", and one day later (by day number) for "tomorrow"; it fails only for "tomorrow" on the last representable date |
| Dates.FormatDayMonthYear | ecourts_scraper.py:106 | the DD-MM-YYYY rendering has length 10, with `-` at indices 2 and 5 and digits everywhere else |
| Dates.ParseFormatRoundTrip | ecourts_scraper.py:106 | reading the DD-MM-YYYY rendering back gives the date |
| Dates.FormatInjective | ecourts_scraper.py:106 | two different dates never render to the same DD-MM-YYYY string |
| Dates.FormatIso | ecourts_scraper.py:170 | the YYYY-MM-DD rendering has length 10, with `-` at indices 4 and 7 and digits elsewhere |
| Dates.IsoRoundTrip | ecourts_scraper.py:170 | reading the YYYY-MM-DD rendering back gives the date, so the year, month and day are in their places |
| Dates.FormatCompact | ecourts_scraper.py:80 | the YYYYMMDD rendering is eight digits |
| Dates.CompactRoundTrip | ecourts_scraper.py:80 | reading the YYYYMMDD rendering back gives the date |
| Page.ExtractSerialNumber | ecourts_scraper.py:149-156 | none exactly when no stripped cell is non-empty and all digits; otherwise the stripped text of the first such cell, which is all digits |
| Page.ExtractCourtName | ecourts_scraper.py:158-165 | the stripped, original-case text of the first cell whose lower-cased text contains "court" or "judge"; the fixed placeholder when there is none; never shorter than five characters, so never empty |
| Page.ExtractCsrfToken | ecourts_scraper.py:93-96 | the `value` of the first input named "csrf_token"; none when there is no such input |
| Page.FirstPdfHref | ecourts_scraper.py:136-139 | none exactly when no href contains ".pdf"; otherwise the first href that does |
| CaseSearch.CaseResultShape | ecourts_scraper.py:109-141 | the two found flags are equal and hold exactly when some row with three or more cells mentions the target; the hearing date is then the target and a court is always named; a serial number is all digits; `pdf_available` holds exactly when `pdf_url` is present, and then the case was found and the link contains ".pdf" |
| CaseSearch.NonMatchingRowKeepsResult | ecourts_scraper.py:121-126 | a row that does not match leaves the record unchanged |
| CaseSearch.MatchingRowOverwrites | ecourts_scraper.py:126-141 | a matching row overwrites the flags, date, serial number and court, and overwrites the PDF fields only when it has a ".pdf" link |
| CaseSearch.FindTargetCell | ecourts_scraper.py:125-141 | the cell loop stops at the first cell containing the target, or runs past every cell when none does |
| CaseSearch.ScanCaseRows | ecourts_scraper.py:120-141 | the nested row and cell loops leave exactly the reference record `CaseResultFor` |
| CaseSearch.ParseCaseResult | ecourts_scraper.py:98-147 | fails, with "date value out of range", exactly for "tomorrow" on 9999-12-31; otherwise the record for the DD-MM-YYYY rendering of the target date |
| CaseSearch.NotFoundIffNoMatch | ecourts_scraper.py:109-141 | the result is the default record exactly when no row with three or more cells mentions the target |
| CaseSearch.ShortRowIsIgnored | ecourts_scraper.py:122-123 | a row with fewer than three cells changes nothing, wherever it is inserted |
| CaseSearch.FieldsFromLastMatch | ecourts_scraper.py:121-141 | the hearing date, serial number and court are those of the last matching row |
| CaseSearch.PdfFromLastPdfRow | ecourts_scraper.py:135-141 | the PDF link is the first ".pdf" href of the last matching row that has one |
| CaseSearch.LaterMatchKeepsEarlierPdf | ecourts_scraper.py:135-141 | a later matching row without a PDF link takes the serial number and court but keeps the earlier PDF link |
| CauseList.DataRows | ecourts_scraper.py:175 | the rows after the header: the input is the header row followed by them, and an empty page gives no rows |
| CauseList.EntriesSnoc | ecourts_scraper.py:177-186 | one more row appends its entry when it has at least four cells, and adds nothing otherwise |
| CauseList.ParseCauseList | ecourts_scraper.py:167-188 | the date is today's YYYY-MM-DD; the entries are exactly `Entries` of the rows after the header |
| CauseList.GetCauseList | ecourts_scraper.py:80-88 | the file name is `causelist_YYYYMMDD.json`; `cases_count` is the number of entries, which is the number of rows after the header with at least four cells |
| CauseList.EntriesCount | ecourts_scraper.py:86 | there is one entry per row with at least four cells |
| CauseList.EntryAtRank | ecourts_scraper.py:177-186 | an entry row preceded by `t` entry rows gives entry number `t`, made of its own stripped cells 0 to 3 |
| CauseList.EntryOfRowOf | ecourts_scraper.py:180-185 | an entry whose fields have no surrounding whitespace comes back unchanged from a four-cell row |
| CauseList.EntriesRoundTrip | ecourts_scraper.py:177-186 | such entries, rendered one per row, parse back to the same list in the same order |
| CauseList.CauseListRoundTrip | ecourts_scraper.py:175-186 | the same holds with a header row in front, which is skipped |

## Left out

- HTTP: the session, the GETs and POSTs and the timeouts are network I/O. The pages they return become the `rows` and `inputs` parameters.
- HTML parsing: BeautifulSoup's `find_all`, `find` and `get_text` are a foreign library. A page is given as its rows (cell texts and anchor hrefs) and its inputs.
- Page.FirstPdfHref: the regular expression `\.pdf` is modelled as the plain substring ".pdf", which is what it matches.
- Form submission: only the CSRF token lookup is modelled, because building the form data and posting it is network I/O.
- File output: `_save_to_file`, `download_pdf` and the `case_result_<timestamp>.json` name are disk I/O.
- The clock: `datetime.now()` is a `Date` parameter. `get_cause_list` reads the clock twice, once for the list's date and once for the file name, so `CauseList.GetCauseList` takes two dates. The time of day is not modelled.
- The exception wrappers of `search_by_cnr`, `search_by_case_details` and `get_cause_list` are not modelled, because they only catch library and network failures. The one failure in the modelled logic, the date overflow, is a `Result` error.
- The constant `"status": "success"` field of `get_cause_list` is not modelled, because it does not vary.
- `display_result` is console output.
- `web_api.py`, `cli.py` and `test_scraper.py` are HTTP routes, command-line glue and live-network runs, and are not part of this model.
- Text: `strip`, `isdigit` and `lower` are modelled over ASCII: whitespace is codes 9-13, 28-31 and 32, digits are `0`-`9`, and only `A`-`Z` are lowered. Python also accepts Unicode whitespace and digits beyond these.
- Dates.FormatDayMonthYear, Dates.FormatIso and Dates.FormatCompact: the year is always rendered as four zero-padded digits. `strftime('%Y')` on some platforms does not pad years below 1000.
- CauseList.ParseCauseList: the guard `if len(cells) > 3 else ""` at `ecourts_scraper.py:184` is always true inside the `len(cells) >= 4` branch. It is kept in the loop, and its `""` arm cannot be reached.
- The `date_type` selector is any string; only the exact string "tomorrow" selects the next day, as in the code.
