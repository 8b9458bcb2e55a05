/**
 * What the PDF library hands to the extractors, reduced to plain data.
 * Every call into the library that can raise is a failure flag here.
 */
module Pdf {
  import opened Wrappers

  /** One cell of an extracted grid; the library yields `None` for an empty cell. */
  type Cell = Option<string>

  type Row = seq<Cell>

  /** The outcome of `table.extract()` on one detected table. */
  datatype DetectedTable =
    | Extracted(rows: seq<Row>)
    | ExtractFailed

  /** The outcome of `page.find_tables()`. */
  datatype TableSearch =
    | Found(tables: seq<DetectedTable>)
    | FindFailed

  /** A page: the outcome of `page.get_text()` (`None` when it raised) and of its table search. */
  datatype Page = Page(text: Option<string>, tables: TableSearch)

  /** The outcome of `pymupdf.open` on one file. */
  datatype Document =
    | Document(pages: seq<Page>)
    | Unopenable
}
