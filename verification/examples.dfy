/**
 * Concrete inputs that pin down the edge cases of the extractors and the writer.
 */
module Examples {
  import opened Wrappers
  import opened Pdf
  import opened Patterns
  import opened MetadataExtraction
  import opened TableExtraction
  import opened Assembly
  import opened Ingestion
  import opened Scan

  /** No word boundary follows `[A-Z]+`: a line starting "Areas Of" yields surname "O". */
  lemma AreasOfYieldsSurnameO()
    ensures SearchName("Areas Of Assessment") == Some(("Areas", "O"))
  {
    var s := "Areas Of Assessment";
    assert GreedyNameMatch(s, 0, "Areas", "O") by {
      assert s[0..7] == "Areas" + " " + "O";
    }
    NameAtIff(s, 0, "Areas", "O");
    assert SearchFrom(NamePattern, s, 0) == Some(0);
  }

  const TwoDigitSemesterLine := SemesterLit + "10" + YearSep + "2024" + ReportLit + "1"

  /** `(\d)` takes one digit, so a two-digit semester does not match at that line. */
  lemma TwoDigitSemesterRejected()
    ensures PeriodAt(TwoDigitSemesterLine, 0).None?
  {
    var s := TwoDigitSemesterLine;
    assert s[SemesterAt + 1] == '0';
    assert s[0..PeriodWidth][SemesterAt + 1..YearAt][0] == s[SemesterAt + 1];
  }

  /** The trailing `(\d)` takes the first digit only: "... Report 12" reads as report 1. */
  lemma TwoDigitReportReadsFirstDigit()
    ensures PeriodAt(PeriodText(1, 2024, 1) + "2", 0) == Some((1, 2024, 1))
  {
    var t := PeriodText(1, 2024, 1);
    assert (t + "2")[0..PeriodWidth] == t;
    PeriodAtIff(t + "2", 0, 1, 2024, 1);
  }

  /** No line starts strictly inside a stretch of text without a newline. */
  lemma NoLineStartWithin(s: string, k: nat)
    requires k <= |s| && '\n' !in s[..k]
    ensures forall j :: 0 <= j < k ==> s[j] != '\n'
  {
    forall j | 0 <= j < k
      ensures s[j] != '\n'
    {
      assert s[j] == s[..k][j];
    }
  }

  const NameLine := "Jane SMITH"
  const CoverText := NameLine + "\n" + PeriodText(1, 2024, 2)

  const Jane := Metadata("Jane", "SMITH", 2024, 1, 2)

  /** The name pattern matches on the first line of the cover, greedily taking the whole surname. */
  lemma CoverNameLine()
    ensures FirstLineMatch(NamePattern, CoverText, 0) && GreedyNameMatch(CoverText, 0, "Jane", "SMITH")
  {
    var s := CoverText;
    assert s[0..10] == "Jane" + " " + "SMITH";
    assert s[10] == '\n';
    NameAtIff(s, 0, "Jane", "SMITH");
  }

  /** The period pattern first matches at the start of the second line. */
  lemma CoverPeriodLine()
    ensures FirstLineMatch(PeriodPattern, CoverText, 11) && PeriodMatches(CoverText, 11, 1, 2024, 2)
  {
    var s := CoverText;
    assert PeriodMatches(s, 11, 1, 2024, 2) by {
      assert s[11..11 + PeriodWidth] == PeriodText(1, 2024, 2);
    }
    assert MatchesAt(PeriodPattern, s, 11) by {
      PeriodAtIff(s, 11, 1, 2024, 2);
    }
    assert !MatchesAt(PeriodPattern, s, 0) by {
      assert s[0] == 'J';
    }
    assert '\n' !in s[..10] by {
      assert s[..10] == NameLine;
    }
    NoLineStartWithin(s, 10);
  }

  /** A two-line cover page: the name on the first line, the period on the second. */
  lemma CoverPageMetadata()
    ensures PageMetadata(Page(Some(CoverText), Found([]))) == Some(Jane)
  {
    CoverNameLine();
    CoverPeriodLine();
    PageMetadataIff(Page(Some(CoverText), Found([])), Jane);
  }

  const Header: Row := [Some(Marker), Some(""), Some(""), Some(""), Some(""), Some("")]
  const SubHeader: Row := [Some(""), Some(""), Some(""), Some(""), Some(""), Some("")]
  const Maths: Row := [Some("Mathematics"), Some("Good"), Some("Good"), Some("Good"), Some("Good"), Some("Good")]

  /** A cover page followed by a page carrying one detected table. */
  function Report(table: seq<Row>): Document {
    Document([Page(Some(CoverText), Found([])), Page(Some(""), Found([Extracted(table)]))])
  }

  /** The metadata comes from the cover, whatever the table holds. */
  lemma ReportMetadata(table: seq<Row>)
    ensures ExtractMetadata(Report(table).pages) == Some(Jane)
  {
    var pages := Report(table).pages;
    CoverPageMetadata();
    assert IsFirst(pages, PageMetadata, 0);
  }

  /** An assessment table on the second page yields its rows after the two header rows. */
  lemma ReportTable(table: seq<Row>)
    requires IsAssessmentTable(table)
    ensures ExtractTableData(Report(table).pages) == Some(DropRows(table, HeaderRows))
  {
    var pages := Report(table).pages;
    assert SelectedTable(pages[1].tables.tables, 0);
    ExtractTableDataSelects(pages, 1, 0);
  }

  lemma ReportExtraction(table: seq<Row>)
    requires IsAssessmentTable(table)
    ensures ExtractData(Report(table)) == Some(Extraction(Jane, DropRows(table, HeaderRows)))
  {
    ReportMetadata(table);
    ReportTable(table);
  }

  /** The marker qualifies a table by membership of a whole cell: any position counts, a longer cell does not. */
  lemma MarkerIsCellMembership()
    ensures IsAssessmentTable([[Some("Notes"), Some(Marker)]])
    ensures !IsAssessmentTable([[Some(Marker + " (Core)")]])
    ensures !IsAssessmentTable([[None, Some("")], [Some(Marker)]])
  {
    assert [Some("Notes"), Some(Marker)][1] == Some(Marker);
    assert Marker + " (Core)" != Marker by {
      assert |Marker + " (Core)"| != |Marker|;
    }
  }

  /** The whole pipeline on a well-formed report: one data row after the two header rows. */
  lemma ReportYieldsOneRow()
    ensures ExtractData(Report([Header, SubHeader, Maths])) == Some(Extraction(Jane, [Maths]))
  {
    var table := [Header, SubHeader, Maths];
    assert IsAssessmentTable(table) by {
      assert table[0][0] == Some(Marker);
    }
    assert DropRows(table, HeaderRows) == [Maths] by {
      assert table[2..] == [Maths];
    }
    ReportExtraction(table);
  }

  /** ... and one stored record, the metadata followed by the row's six cells. */
  lemma ReportStoresOneRecord()
    ensures FileRows(ExtractData(Report([Header, SubHeader, Maths])), x => true) == [ToRecord(Jane, Maths)]
  {
    ReportYieldsOneRow();
    assert AllWide([Maths]);
    var rs := Records(Jane, [Maths]);
    assert rs == [ToRecord(Jane, Maths)];
    assert Accepted(rs, x => true) == Accepted([], x => true) + [rs[0]] by {
      AcceptedSnoc([], rs[0], x => true);
      assert [] + [rs[0]] == rs;
    }
  }

  /** A table holding only its two header rows still counts as found: the document yields no rows and stores nothing. */
  lemma HeaderOnlyTableStoresNothing(accepts: Oracle)
    ensures ExtractData(Report([Header, SubHeader])) == Some(Extraction(Jane, []))
    ensures FileRows(ExtractData(Report([Header, SubHeader])), accepts) == []
  {
    var table := [Header, SubHeader];
    assert IsAssessmentTable(table) by {
      assert table[0][0] == Some(Marker);
    }
    ReportExtraction(table);
  }

  /** A row of fewer than six cells after a good row: the writer escapes and the good row is rolled back too. */
  lemma ShortRowRollsBackDocument(accepts: Oracle)
    ensures Contribution(Extraction(Jane, [Maths, [Some("Art")]]), accepts) == []
  {
    assert |[Maths, [Some("Art")]][1]| < RowWidth;
  }
}
