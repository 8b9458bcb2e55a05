/**
 * `extract_data`: metadata first, the table only when metadata was found,
 * and the two merged into one result.
 */
module Assembly {
  import opened Wrappers
  import opened Pdf
  import opened MetadataExtraction
  import opened TableExtraction

  /** The merged dictionary `{**metadata, "all_rows": rows}`. */
  datatype Extraction = Extraction(meta: Metadata, rows: seq<Row>)

  /** `extract_data(file)`. A file that cannot be opened yields nothing: the handler's own
      `logging.exception()` raises in turn, and the batch loop skips the file either way. */
  function ExtractData(doc: Document): (r: Option<Extraction>)
    ensures r.Some? <==> doc.Document? && ExtractMetadata(doc.pages).Some? && ExtractTableData(doc.pages).Some?
    ensures r.Some? ==> Some(r.value.meta) == ExtractMetadata(doc.pages) && Some(r.value.rows) == ExtractTableData(doc.pages)
    ensures r.Some? ==> Valid(r.value.meta)
  {
    match doc
    case Unopenable => None
    case Document(pages) =>
      match ExtractMetadata(pages)
      case None => None
      case Some(meta) =>
        match ExtractTableData(pages)
        case None => None
        case Some(rows) => Some(Extraction(meta, rows))
  }

  /** Without metadata the tables do not matter: two documents whose pages carry the same texts
      both yield nothing, whatever their tables are. */
  lemma TablesIrrelevantWithoutMetadata(pages: seq<Page>, other: seq<Page>)
    requires |pages| == |other|
    requires forall i :: 0 <= i < |pages| ==> pages[i].text == other[i].text
    requires ExtractMetadata(pages).None?
    ensures ExtractData(Document(pages)).None? && ExtractData(Document(other)).None?
  {
    forall i | 0 <= i < |other|
      ensures PageMetadata(other[i]).None?
    {
      assert PageMetadata(other[i]) == PageMetadata(pages[i]);
    }
  }
}
