/** The page as the scraper sees it once BeautifulSoup has parsed it: table rows,
    each with the texts of its `td` cells and the hrefs of its anchors, and
    the `input` elements of a form. The extractors pick single fields out of them. */
module Page {
  import opened Wrappers
  import opened Text
  import opened Sequences

  /** One `tr`: `get_text()` of each `td` cell in order, and the `href` of
      each anchor inside the row, in document order. */
  datatype Row = Row(cells: seq<string>, hrefs: seq<string>)

  /** One `input` element: its `name` and `value` attributes, when present. */
  datatype Input = Input(name: Option<string>, value: Option<string>)

  const CourtPlaceholder := "Court information not available"
  const CsrfFieldName := "csrf_token"

  /** A cell whose stripped text is non-empty and all digits. */
  predicate IsSerialCell(cell: string) {
    IsDigits(Strip(cell))
  }

  /** The serial number of a row: the stripped text of its first all-digit cell. */
  function ExtractSerialNumber(cells: seq<string>): (r: Option<string>)
    ensures r.None? <==> forall i :: 0 <= i < |cells| ==> !IsSerialCell(cells[i])
    ensures forall i :: FirstAt(cells, IsSerialCell, i) ==> r == Some(Strip(cells[i]))
    ensures r.Some? ==> IsDigits(r.value)
  {
    var k := FirstIndex(cells, IsSerialCell);
    if k < |cells| then Some(Strip(cells[k])) else None
  }

  /** A cell whose stripped, lower-cased text mentions "court" or "judge". */
  predicate IsCourtCell(cell: string) {
    var t := Lower(Strip(cell));
    Contains(t, "court") || Contains(t, "judge")
  }

  /** The court of a row: the stripped text, in its original case, of its first
      cell that mentions a court or a judge, otherwise a fixed placeholder. */
  function ExtractCourtName(cells: seq<string>): (r: string)
    ensures (forall i :: 0 <= i < |cells| ==> !IsCourtCell(cells[i])) ==> r == CourtPlaceholder
    ensures forall i :: FirstAt(cells, IsCourtCell, i) ==> r == Strip(cells[i])
    ensures |r| >= 5
  {
    var k := FirstIndex(cells, IsCourtCell);
    if k < |cells| then
      var t := Strip(cells[k]);
      if Contains(Lower(t), "court") then ContainsIsNoLonger(Lower(t), "court"); t
      else ContainsIsNoLonger(Lower(t), "judge"); t
    else CourtPlaceholder
  }

  predicate IsCsrfInput(input: Input) {
    input.name == Some(CsrfFieldName)
  }

  /** `soup.find('input', {'name': 'csrf_token'})` followed by `.get('value')`:
      the value of the first input named "csrf_token", and nothing when there
      is no such input or it has no value. */
  function ExtractCsrfToken(inputs: seq<Input>): (r: Option<string>)
    ensures (forall i :: 0 <= i < |inputs| ==> !IsCsrfInput(inputs[i])) ==> r == None
    ensures forall i :: FirstAt(inputs, IsCsrfInput, i) ==> r == inputs[i].value
  {
    var k := FirstIndex(inputs, IsCsrfInput);
    if k < |inputs| then inputs[k].value else None
  }

  /** An href that the pattern `\.pdf` finds somewhere in. */
  predicate IsPdfHref(href: string) {
    Contains(href, ".pdf")
  }

  /** `row.find('a', href=re.compile(r'\.pdf'))` followed by `.get('href')`:
      the first href of the row that contains ".pdf". */
  function FirstPdfHref(hrefs: seq<string>): (r: Option<string>)
    ensures r.None? <==> forall i :: 0 <= i < |hrefs| ==> !IsPdfHref(hrefs[i])
    ensures forall i :: FirstAt(hrefs, IsPdfHref, i) ==> r == Some(hrefs[i])
    ensures r.Some? ==> IsPdfHref(r.value)
  {
    var k := FirstIndex(hrefs, IsPdfHref);
    if k < |hrefs| then Some(hrefs[k]) else None
  }
}
