/**
 * `extract_tabledata`: scan the pages, then the tables detected on each page,
 * and return the rows after the two header rows of the first table whose
 * first row has a cell equal to the marker.
 */
module TableExtraction {
  import opened Wrappers
  import opened Pdf
  import opened Scan

  const Marker: string := "Areas Of Assessment"

  /** Rows dropped from the front of the selected table: the header and one sub-header. */
  const HeaderRows: nat := 2

  /** `table_rows and "Areas Of Assessment" in table_rows[0]`: list membership, compared cell by cell. */
  predicate IsAssessmentTable(rows: seq<Row>) {
    |rows| > 0 && Some(Marker) in rows[0]
  }

  /** Python's `rows[k:]`, which is empty when `k` runs past the end. */
  function DropRows(rows: seq<Row>, k: nat): (r: seq<Row>)
    ensures |r| == if |rows| <= k then 0 else |rows| - k
    ensures forall i :: 0 <= i < |r| ==> r[i] == rows[k + i]
  {
    if |rows| <= k then [] else rows[k..]
  }

  predicate Qualifies(t: DetectedTable) {
    t.Extracted? && IsAssessmentTable(t.rows)
  }

  /** Table `i` is the one the page loop returns: it qualifies, and every table before it extracted without raising and did not. */
  predicate SelectedTable(ts: seq<DetectedTable>, i: int) {
    0 <= i < |ts| && Qualifies(ts[i])
    && forall j :: 0 <= j < i ==> ts[j].Extracted? && !IsAssessmentTable(ts[j].rows)
  }

  /** The inner loop over one page's tables; a table whose `extract()` raises abandons the rest of the page. */
  function ScanTables(ts: seq<DetectedTable>): Option<seq<Row>>
    decreases |ts|
  {
    if |ts| == 0 then None
    else
      match ts[0]
      case ExtractFailed => None
      case Extracted(rows) =>
        if IsAssessmentTable(rows) then Some(DropRows(rows, HeaderRows)) else ScanTables(ts[1..])
  }

  /** The inner loop returns a value exactly when some table is selected, and then the rows after that table's headers. */
  lemma {:induction false} ScanTablesSelects(ts: seq<DetectedTable>)
    ensures ScanTables(ts).Some? <==> exists i :: SelectedTable(ts, i)
    ensures forall i :: SelectedTable(ts, i) ==> ScanTables(ts) == Some(DropRows(ts[i].rows, HeaderRows))
    decreases |ts|
  {
    if |ts| > 0 && ts[0].Extracted? && !IsAssessmentTable(ts[0].rows) {
      ScanTablesSelects(ts[1..]);
      forall i | SelectedTable(ts, i)
        ensures i > 0 && SelectedTable(ts[1..], i - 1)
      {
      }
      forall i | SelectedTable(ts[1..], i)
        ensures SelectedTable(ts, i + 1)
      {
      }
    } else if |ts| > 0 && ts[0].ExtractFailed? {
      forall i | SelectedTable(ts, i)
        ensures false
      {
      }
    } else if |ts| > 0 {
      assert SelectedTable(ts, 0);
    }
  }

  /** The body of the page loop: `None` when `find_tables` raises, or no table of the page is selected. */
  function PageTable(page: Page): Option<seq<Row>> {
    match page.tables
    case FindFailed => None
    case Found(ts) => ScanTables(ts)
  }

  /** `extract_tabledata(document)`: the first page, in document order, with a selected table. */
  function ExtractTableData(pages: seq<Page>): (r: Option<seq<Row>>)
    ensures r.None? <==> forall i :: 0 <= i < |pages| ==> PageTable(pages[i]).None?
    ensures forall i :: IsFirst(pages, PageTable, i) ==> r == PageTable(pages[i])
  {
    FirstSome(pages, PageTable)
  }

  /** When table `j` of page `i` is selected and no earlier page yields a table, the result is that table's rows
      after the two header rows: N - 2 of them for an N-row table, none when N < 3. */
  lemma ExtractTableDataSelects(pages: seq<Page>, i: nat, j: nat)
    requires i < |pages| && pages[i].tables.Found? && SelectedTable(pages[i].tables.tables, j)
    requires forall k :: 0 <= k < i ==> PageTable(pages[k]).None?
    ensures ExtractTableData(pages) == Some(DropRows(pages[i].tables.tables[j].rows, HeaderRows))
    ensures |ExtractTableData(pages).value| == if |pages[i].tables.tables[j].rows| <= 2 then 0
                                                else |pages[i].tables.tables[j].rows| - 2
  {
    ScanTablesSelects(pages[i].tables.tables);
    assert IsFirst(pages, PageTable, i);
  }

  /** A page contributes nothing when `find_tables` raises, or when a table raises before any table qualifies. */
  lemma FailedPageYieldsNothing(page: Page, k: nat)
    requires page.tables.FindFailed?
             || (k < |page.tables.tables| && page.tables.tables[k].ExtractFailed?
                 && forall j :: 0 <= j < k ==> !Qualifies(page.tables.tables[j]))
    ensures PageTable(page).None?
  {
    if page.tables.Found? {
      var ts := page.tables.tables;
      ScanTablesSelects(ts);
      forall i | SelectedTable(ts, i)
        ensures false
      {
      }
    }
  }

  /** Tables and pages after the first page that yields a table are never examined. */
  lemma ExtractTableDataIgnoresLaterPages(pages: seq<Page>, later: seq<Page>)
    requires ExtractTableData(pages).Some?
    ensures ExtractTableData(pages + later) == ExtractTableData(pages)
  {
    FirstSomeAppend(pages, later, PageTable);
  }
}
