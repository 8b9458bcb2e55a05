/**
 * `extract_metadata`: scan the pages in order and return the student's name
 * and reporting period from the first page on which both patterns match.
 */
module MetadataExtraction {
  import opened Wrappers
  import opened Pdf
  import opened Patterns
  import opened Scan

  /** The five fields the extractor returns; `year`, `semester` and `report` are `int()` of the captured digits. */
  datatype Metadata = Metadata(firstname: string, surname: string, year: nat, semester: nat, report: nat)

  /** What the two patterns allow the fields to be. */
  predicate Valid(m: Metadata) {
    IsFirstname(m.firstname) && IsSurname(m.surname)
    && m.semester <= 9 && m.year <= 9999 && m.report <= 9
  }

  /** The body of the page loop: `None` both when `get_text` raises and when either search fails. */
  function PageMetadata(page: Page): (r: Option<Metadata>)
    ensures r.Some? ==> Valid(r.value)
  {
    match page.text
    case None => None
    case Some(t) =>
      match SearchName(t)
      case None => None
      case Some((firstname, surname)) =>
        match SearchPeriod(t)
        case None => None
        case Some((semester, year, report)) => Some(Metadata(firstname, surname, year, semester, report))
  }

  /** A page yields `m` exactly when its text loads, the earliest line the name pattern matches on carries
      m's names (greedily), and the earliest line the period pattern matches on carries m's period. */
  lemma PageMetadataIff(page: Page, m: Metadata)
    ensures PageMetadata(page) == Some(m)
            <==> page.text.Some?
                 && (exists p: nat :: FirstLineMatch(NamePattern, page.text.value, p)
                                      && GreedyNameMatch(page.text.value, p, m.firstname, m.surname))
                 && (exists q: nat :: FirstLineMatch(PeriodPattern, page.text.value, q)
                                      && PeriodMatches(page.text.value, q, m.semester, m.year, m.report))
  {
    if page.text.Some? {
      var t := page.text.value;
      SearchNameIff(t, m.firstname, m.surname);
      SearchPeriodIff(t, m.semester, m.year, m.report);
    }
  }

  /** A page is skipped exactly when its text fails to load, or one of the two patterns matches at no line start. */
  lemma PageMetadataNone(page: Page)
    ensures PageMetadata(page).None?
            <==> page.text.None?
                 || (forall p: nat, f: string, l: string :: IsLineStart(page.text.value, p)
                                                         ==> !NameMatches(page.text.value, p, f, l))
                 || (forall p: nat, a: nat, b: nat, c: nat :: IsLineStart(page.text.value, p)
                                                             ==> !PeriodMatches(page.text.value, p, a, b, c))
  {
    if page.text.Some? {
      SearchNameNone(page.text.value);
      SearchPeriodNone(page.text.value);
    }
  }

  /** `extract_metadata(document)`: the first page, in document order, that yields metadata. */
  function ExtractMetadata(pages: seq<Page>): (r: Option<Metadata>)
    ensures r.None? <==> forall i :: 0 <= i < |pages| ==> PageMetadata(pages[i]).None?
    ensures forall i :: IsFirst(pages, PageMetadata, i) ==> r == PageMetadata(pages[i])
    ensures r.Some? ==> Valid(r.value)
  {
    FirstSome(pages, PageMetadata)
  }

  /** Pages after the one that yields metadata are never examined. */
  lemma ExtractMetadataIgnoresLaterPages(pages: seq<Page>, later: seq<Page>)
    requires ExtractMetadata(pages).Some?
    ensures ExtractMetadata(pages + later) == ExtractMetadata(pages)
  {
    FirstSomeAppend(pages, later, PageMetadata);
  }
}
